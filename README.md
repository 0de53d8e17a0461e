# PayAware request gates, modelled in Dafny

PayAware is a Next.js personal-finance app. Two parts of it hold logic that can be stated on its own:

- **The fixed-window rate limiter** (`rateLimit` in `lib/rate-limit.ts`). It keeps one counter per token in Redis under the key `rate_limit:<token>`. Each call runs `INCR` on that key. When `INCR` returns 1 it also runs `EXPIRE key window`. It then reads `TTL` back and answers `{ success, remaining, reset }`. If any Redis command throws, it fails open: the request is admitted with the full quota. The module also holds the reconnect back-off rule (`retryStrategy`) handed to the Redis client.
- **The page-routing gate** (`proxy` in `proxy.ts`). For each page request it decides whether to pass the request on or to redirect it to `/login`, `/onboarding` or `/dashboard`. The decision depends on the path, on whether a user is signed in and on the user's `onboarding_completed` flag.

The project has four modules:

- `wrappers.dfy`: `Option`.
- `redis_store.dfy` (module `RedisStore`): an abstract Redis.
  - The keyspace is a `map<string, Entry>`, where an entry is a count plus an optional absolute expiry in milliseconds.
  - `INCR`, `EXPIRE`, `EXPIRE … NX` and `TTL` are pure functions over that map.
  - The corrected limiter sends `INCR` and `EXPIRE … NX` together in one `MULTI`/`EXEC` transaction.
  - A `Store` class holds the map. Its methods update the map in place, and each method can be told that its command fails.
  - A key whose expiry has passed behaves as if it were absent.
  - `TTL` rounds the remaining milliseconds to the nearest second, as Redis does.
  - `EXPIRE` with a non-positive timeout deletes the key.
- `rate_limit.dfy` (module `RateLimit`):
  - the method `RateLimit` on a `Store`, proved equal to the specification function `Check`;
  - lemmas about one call and about successive calls;
  - the corrected limiter described under Findings;
  - `RetryStrategy`.
- `proxy.dfy` (module `Proxy`): the redirect chain as the function `Decide`, proved equal to a decision table over prefix lists, plus lemmas.

Inputs that come from outside the program:

- `Date.now()` is the parameter `now`, in milliseconds.
- Which Redis commands fail during a call is the parameter `faults`.
- The signed-in user is a boolean.
- The `users` row selected by the profile query is an `Option<Profile>`. A missing row, a null flag and `false` all count as "not onboarded", as `!profile?.onboarding_completed` does.

Two facts about the code that the model keeps:

- The fail-open reset time is `now + window * 1000` ms (lib/rate-limit.ts:61).
- `limit` and `window` are not checked to be positive. Any integer is accepted, and `limit = 0` denies every call while the store is healthy. A call whose Redis command fails is still admitted.

## Model

| member | source | states |
|---|---|---|
| `RedisStore.Incremented` | lib/rate-limit.ts:42 | INCR: the key's visible count goes up by one (an absent key is created at 1 with no expiry), a live key keeps its expiry, and every other key is unchanged |
| `RedisStore.AfterExpire` | lib/rate-limit.ts:45 | EXPIRE: an absent key is untouched, a non-positive timeout deletes the key, otherwise the key's expiry becomes `seconds` from now with its count kept; other keys unchanged |
| `RedisStore.AfterExpireIfUnset` | lib/rate-limit.ts:44-46 | EXPIRE … NX (used by the corrected limiter): changes nothing unless the key is live with no expiry, and in that case acts as EXPIRE |
| `RedisStore.TimeToLive` | lib/rate-limit.ts:48 | TTL: -2 exactly for an absent key, -1 exactly for a key without expiry, otherwise a non-negative number of seconds within half a second of the true remaining time |
| `RedisStore.Store.Incr` | lib/rate-limit.ts:42 | the command fails and leaves the keyspace alone, or it returns the post-increment count and the keyspace becomes `Incremented` |
| `RedisStore.Store.Expire` | lib/rate-limit.ts:45 | the command fails and changes nothing, or it reports whether the key existed and the keyspace becomes `AfterExpire` |
| `RedisStore.Store.IncrExpireIfUnset` | lib/rate-limit.ts:42-46 | the corrected limiter's transaction (INCR, then EXPIRE … NX): it fails and changes nothing, or it returns the post-increment count and both commands are applied |
| `RedisStore.Store.Ttl` | lib/rate-limit.ts:48 | the command fails, or it returns `TimeToLive` of the current keyspace |
| `RateLimit.KeyFor` | lib/rate-limit.ts:39 | the key is `rate_limit:` followed by the token, which can be read back from the key |
| `RateLimit.KeyForInjective` | lib/rate-limit.ts:39 | two tokens share a counter key iff they are equal |
| `RateLimit.FailOpen` | lib/rate-limit.ts:58-62 | the catch branch admits the request, reports the whole limit as remaining, and puts the reset `window` seconds after now |
| `RateLimit.Admission` | lib/rate-limit.ts:50-54 | admitted iff count <= limit; remaining is max(0, limit - count), so never negative; reset is `ttl` seconds after now |
| `RateLimit.Check` | lib/rate-limit.ts:37-64 | one call of rateLimit writes only the key `rate_limit:<token>`, and a failed INCR leaves the store as it was |
| `RateLimit.CheckReadsOnlyKey` | lib/rate-limit.ts:39-48 | one call reads only the key `rate_limit:<token>`: keyspaces that agree on that key give the same result and the same entry under it afterwards |
| `RateLimit.RateLimit` | lib/rate-limit.ts:37-64 | the method (INCR, EXPIRE only when INCR returned 1, TTL, fail-open on any failed command) returns and leaves exactly what `Check` describes |
| `RateLimit.CallConsumesOne` | lib/rate-limit.ts:42-51 | with window > 0, every call whose INCR succeeds consumes exactly one unit, whether it is admitted or denied and even if a later command fails; a call whose INCR fails consumes nothing |
| `RateLimit.ExpirySetOnFirstCallOnly` | lib/rate-limit.ts:44-46 | a call on a live counter keeps its expiry (no extension, no reset); when its EXPIRE succeeds and window > 0, the call that creates the counter gives it an expiry of exactly `window` seconds |
| `RateLimit.HealthyDecision` | lib/rate-limit.ts:42-52 | on a healthy store, success iff the post-increment count <= limit, and remaining = max(0, limit - count) >= 0 |
| `RateLimit.FaultFailsOpen` | lib/rate-limit.ts:55-62 | whatever the stored count, a failed command that the call reaches makes it return the fail-open result |
| `RateLimit.FailOpenExactlyOnFault` | lib/rate-limit.ts:55-62 | on a non-negative stored count (the only kind INCR creates), the result is (true, limit, now + window*1000) exactly when a command the call reaches fails; a healthy call never yields it |
| `RateLimit.ResetWithinWindow` | lib/rate-limit.ts:44-53 | with window > 0, on a healthy call whose counter's expiry belongs to the current window, now <= reset <= now + window*1000, with equality on the right for the call that opens the window |
| `RateLimit.ExpiredWindowRestarts` | lib/rate-limit.ts:42-53 | with window > 0, once a counter's expiry has passed, the next healthy call starts a new window: count 1, a fresh expiry of `window` seconds, success iff 1 <= limit |
| `RateLimit.OpenWindowCounts` | lib/rate-limit.ts:42-53 | within an open window, successive healthy calls see counts c+1, c+2, …; each is admitted iff its count <= limit, and each reports the window's end to within half a second |
| `RateLimit.WindowQuota` | lib/rate-limit.ts:42-53 | with window > 0, on a fresh key with limit N, healthy calls 1..N in one window are admitted with N-1, …, 0 left, and later calls are denied with 0 left (with N = 0 the first call is denied); every reset is between now and now + window |
| `RateLimit.ExpireFaultStrandsCounter` | lib/rate-limit.ts:42-62 | as written, a failed EXPIRE on the creating call fails open and leaves the counter at 1 with no expiry |
| `RateLimit.StrandedCounterNeverResets` | lib/rate-limit.ts:42-53 | as written, a counter with no expiry is never given one: later healthy calls at any times count on from it, report a reset one second in the past, and are denied for good once past the limit |
| `RateLimit.StrandedCounterExample` | lib/rate-limit.ts:42-62 | as written, with limit 1 and window 60, one failed EXPIRE at time 0 makes a call a day later be denied |
| `RateLimit.CheckRepaired` | lib/rate-limit.ts:42-46 | the corrected call (INCR and EXPIRE … NX in one transaction) also writes only the token's key, and a failed transaction leaves the store as it was and fails open |
| `RateLimit.RateLimitRepaired` | lib/rate-limit.ts:37-64 | the corrected method returns and leaves exactly what `CheckRepaired` describes |
| `RateLimit.RepairedNeverStrands` | lib/rate-limit.ts:44-46 | with the correction, a key that holds no counter without an expiry still holds none after a call, for any window and whichever commands fail (the original breaks this: `ExpireFaultStrandsCounter`) |
| `RateLimit.RepairedCounterAlwaysExpires` | lib/rate-limit.ts:44-46 | with window > 0, from any prior state, a corrected call whose transaction succeeds leaves the counter live with an expiry: the one it had, or `window` from now |
| `RateLimit.RepairedExample` | lib/rate-limit.ts:42-62 | on the stranded-counter input, the corrected limiter's failed first call changes nothing, and the call a day later opens a window at count 1 and is admitted |
| `RateLimit.RepairedAgreesWithOriginal` | lib/rate-limit.ts:44-46 | when no command of the transaction fails, on an absent counter or one created by INCR that already has an expiry, the corrected call equals the original |
| `RateLimit.ReplayAgrees` | lib/rate-limit.ts:44-46 | on a keyspace where the token's counter, if any, was created by INCR and has an expiry, any run of healthy corrected calls returns and leaves exactly what the original does |
| `RateLimit.RetryStrategy` | lib/rate-limit.ts:7-11 | stop reconnecting (None) iff attempt > 3; otherwise the delay is at most 2000 and at most 50 × attempt |
| `RateLimit.ReconnectSchedule` | lib/rate-limit.ts:7-11 | attempts 1..4 get 50, 100, 150 ms then stop, so no delay exceeds 150 ms and the 2000 ms cap never applies |
| `Proxy.Onboarded` | proxy.ts:71-85 | `profile?.onboarding_completed` is truthy exactly for a present profile whose flag is true; a missing row, a null flag and false are all "not onboarded" |
| `Proxy.Decide` | proxy.ts:37-91 | the outcome is pass-through or a redirect to /login, /onboarding or /dashboard. It is /login iff the path is "/" or is protected with no user. It is /onboarding iff a user is on a protected or auth page and is not onboarded. It is /dashboard iff an onboarded user is on an auth page. Otherwise the request passes. Each of these is an iff |
| `Proxy.PrefixFacts` | proxy.ts:43-77 | the protected prefixes are /dashboard, /payments, /insights, /updates and the auth prefixes /login, /signup; no path is both protected and an auth page, and "/" is neither |
| `Proxy.ProfileOnlyConsultedWhenNeeded` | proxy.ts:63-83 | unless a user is signed in on a protected or auth page, the profile row does not affect the outcome |
| `Proxy.RawPrefixMatching` | proxy.ts:43-77 | matching is a raw string prefix: /dashboardX with no user goes to /login, /signup-help with an onboarded user goes to /dashboard, and /loginfo with a user and no profile goes to /onboarding |
| `Proxy.Landing` | proxy.ts:39-91 | following redirects with the same user and profile, a page it lands on passes through |
| `Proxy.TargetsSettle` | proxy.ts:39-91 | /onboarding always passes; /dashboard passes for an onboarded user, and otherwise goes to /login (no user) or /onboarding; /login passes with no user, and a user goes on to /dashboard or /onboarding |
| `Proxy.NoRedirectLoop` | proxy.ts:39-91 | from any path, following redirects with the same user and profile reaches a passing page within two redirects, and two can be needed (/ to /login to /dashboard) |

## Findings

| source | as written | input that shows it | evidently intended | confidence | as-written member | corrected member |
|---|---|---|---|---|---|---|
| lib/rate-limit.ts:44-46 | The expiry is set only when INCR returns 1. If that EXPIRE fails, the catch fails open and the counter is left with no TTL. No later INCR returns 1 again, so the counter never expires. | limit 1, window 60 s. At time 0, INCR succeeds and EXPIRE fails. A healthy call at 86 400 000 ms (one day later) gets count 2 and is denied, with a reset time in the past. | Every counter expires `window` seconds after its window opens, so the call a day later starts a fresh window and is admitted. | medium; not executed | `RateLimit.StrandedCounterExample` | `RateLimit.RepairedNeverStrands` |

`RateLimit.CheckRepaired` and `RateLimit.RateLimitRepaired` implement the correction. They send `INCR` and `EXPIRE key window NX` together in one `MULTI`/`EXEC` transaction, so either both are applied or neither is. `RateLimit.RepairedExample` runs the row's input through it: the call a day later is admitted. When no command of the transaction fails, `RateLimit.RepairedAgreesWithOriginal` shows the corrected limiter agrees with the original on the states a fault-free history produces. `RateLimit.ReplayAgrees` extends this to whole runs of healthy calls. So the quota lemmas proved for the original also hold for the corrected limiter on those states.

## Left out

- Redis client construction, the connection URL, `maxRetriesPerRequest` and the `error` event logging (lib/rate-limit.ts:5-6, 15-22) are network set-up and environment access. Only `retryStrategy` is modelled.
- Concurrency: each Redis command is one atomic step, and calls are sequential. Interleavings of concurrent requests and several server instances are not modelled.
- Time: one `now` serves all three commands of a call, and the application and Redis share one clock. Clock skew and time passing between commands are not modelled.
- A failed command is one that never reached Redis. A command that Redis applied but whose reply was lost (a timeout after execution) is not modelled.
- Redis integer limits are not modelled. INCR on a counter at 2^63 - 1 errors in Redis, and JavaScript numbers lose precision above 2^53. Both are unbounded here.
- `limit` and `window` are integers here. Fractional JavaScript numbers are not modelled.
- The Supabase client, `auth.getUser()` and the profile query (proxy.ts:10-35, 65-69, 79-83) are foreign calls. Their results are the inputs `signedIn` and `profile`. The query is made at most once per request, so one `profile` input stands for both query sites.
- The cookie-copying `setAll` callback (proxy.ts:18-28) and the `matcher` configuration (proxy.ts:94-98) are framework plumbing. Redirect URLs are modelled by their path only.
- The admission wrapper `withSecurity` (`lib/api-middleware`) is imported by the API routes, but lib/api-middleware is not part of this model. How it orders the authentication check and the rate limit, and which token it passes, are therefore not modelled.
- The API routes (payments, AI, news, updates), the UI components and the type declarations are outside the two gates.
