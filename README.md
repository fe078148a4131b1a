# Risk-lookup service core, modelled in Dafny

This project models the in-process core of a small FastAPI service that fronts an upstream
risk-scoring API for Ethereum addresses:

- an LRU response cache built on an `OrderedDict`, with a class-level singleton slot, a
  periodic full purge and a stop flag (`app/cache/cache.py`);
- a sliding-window rate limiter, global and per client key (`app/middleware/rate_limiter.py`);
- a bearer-token handler that parses a JWT's expiry claim and fetches, reuses or refreshes
  the token (`app/jwt/jwt.py`);
- the category deduplication of the upstream response (`app/utils/risk_utils.py`);
- the `/check` route that combines token, cache, upstream fetch and deduplication
  (`app/routes/check.py`).

Files and modules, one per component:

- `common.dfy` (`Common`): `Option`, `HttpError(status, detail)`, `Result`, `NoDuplicates`.
- `models.dfy` (`Models`): the record shapes `OwnCategory`, `Details`, `RiskDetailsResponse`
  and `CheckEndpointResponse`.
- `ordered_map.dfy` (`OrderedMap`): a value model of `OrderedDict` (key order plus a map).
  Item assignment `d[k] = v` on a key that is already present keeps that key's position.
- `cache.dfy` (`Cache`): class `LruCache`, with fields `cache`, `capacity`, `purgeInterval`
  and `stopPurge`. Class `CacheRegistry` holds the class-level `_instance` slot. The
  function `AfterSet` gives the effect of `set`, and the lemmas about it prove the eviction
  properties.
- `rate_limiter.dfy` (`RateLimit`): class `RateLimiter` with `requestTimestamps` and
  `requestHistory`. The pure functions `Prune`, `Admit` (prune, check, append) and
  `AdmitKey` are what the two middleware methods compute. `Run` folds `Admit` over a
  sequence of arrivals.
- `jwt.dfy` (`Jwt`):
  - `SplitDots`, `Padding` and `GetExpireTime` model `_get_expire_time`.
  - `TokenState` is the pair (`token`, `expire_time`).
  - `GetTokenAsWritten` is the `get_token` state machine as a function.
  - Class `JwtHandler` performs the same steps field by field.
  - `GetTokenCorrected` is the corrected state machine (see Findings).
- `risk_utils.dfy` (`RiskUtils`): `DeduplicateCategories`. Its two loops are proved equal to
  the set union `CategoryUnion`.
- `check.dfy` (`Check`): `CheckEthereumAddress`, a method over the cache registry. The token
  outcome and the risk fetcher are its inputs.

How collaborators are represented:

- Timestamps, the clock and windows are integers.
- The token fetcher is given as the results of its first and second call in one `get_token`.
- The decoder of the JWT payload segment (base64, then UTF-8, then JSON) is a function
  parameter `decode`. It returns the claims, or which decoding step failed.
- In the route, `get_current_token` is given as a `Result<string>`, and `fetch_risk_details`
  as a function from (address, token) to a `Result`.
- Each locked section (`async with lock:`) is one method.

Points where the code behaves differently from what its docstrings and design suggest. The
model follows the code:

- Writing to an existing key does not refresh its recency. `OrderedDict` item assignment
  keeps the key's position. Only a `get` hit and a fresh insert make a key the newest.
- `delete_instance` only empties the slot. It does not stop the old instance's purge loop.
- `periodic_purge` reads the stop flag only at the head of its loop, before sleeping. A
  `stop_purge` that arrives during the sleep still lets one more clear happen.
  `LruCache.PurgeStep` models one turn of the loop, with the flag read at its head.
- Invalid base64, and a JSON payload that is not an object, are not turned into an HTTP error.
  They escape `_get_expire_time` as other exceptions (`Uncaught`). Only a wrong segment
  count, a UTF-8 failure or a JSON failure give status 500.
- A call to `get_token` with no token can fetch twice. This happens when the token just
  fetched already has an expiry at or before now. The second fetch sets the expiry to the
  new token's expiry less one second.
- The capacity is any integer, not only a positive one.

## Model

| member | source | states |
|---|---|---|
| OrderedMap.Empty | app/cache/cache.py:67 | a new dictionary has no keys and no values |
| OrderedMap.Get | app/cache/cache.py:106-110 | a value is returned exactly when the key is present, and it is the stored value |
| OrderedMap.MoveToEnd | app/cache/cache.py:108 | the key becomes the last (newest). Values, the key set and the relative order of the other keys are unchanged |
| OrderedMap.Put | app/cache/cache.py:120 | the key maps to the new value. A present key keeps its position; a new key is appended last. Each key stays listed once |
| OrderedMap.PopFirst | app/cache/cache.py:122 | removes exactly the oldest key and its value; all other keys and values stay |
| Cache.AfterSet | app/cache/cache.py:119-122 | the dictionary after `set` still lists every stored key exactly once |
| Cache.SetThenGet | app/cache/cache.py:119-122 | when size <= capacity held before, `get(k)` after `set(k, v)` returns `v`, except with a capacity of 0 or below, where the key evicts itself and `get` returns None |
| Cache.SetEvictsAtMostOldest | app/cache/cache.py:121-122 | `set` drops at most one key, the first of the dictionary after assignment. Any key it drops is the oldest key. Size <= capacity is preserved |
| Cache.SetPosition | app/cache/cache.py:120-122 | writing to a present key (within capacity) keeps the key order and changes only that value. A new key is appended, and overflow drops the first key |
| Cache.SetAll | app/cache/cache.py:119-122 | any sequence of `set` calls keeps the dictionary well formed |
| Cache.FillUpToCapacity | app/cache/cache.py:119-122 | up to `capacity` distinct keys set into an empty cache are all kept, in call order |
| Cache.OverflowEvictsFirst | app/cache/cache.py:121-122 | `capacity + 1` distinct keys set into an empty cache leave exactly the last `capacity` keys, and `get` of the first key returns None (101 keys into capacity 100) |
| Cache.LruCache.constructor | app/cache/cache.py:65-74 | a new instance has an empty dictionary, the given capacity and purge interval, and the stop flag clear |
| Cache.LruCache.Get | app/cache/cache.py:97-110 | a miss returns None and leaves the dictionary and its order unchanged. A hit returns the stored value and moves the key to the end, with the values unchanged |
| Cache.LruCache.Set | app/cache/cache.py:112-122 | the new dictionary is `AfterSet` of the old one, so the lemmas above apply to every call |
| Cache.LruCache.ClearCache | app/cache/cache.py:124-127 | the dictionary is empty afterwards, so every later `get` misses |
| Cache.LruCache.PurgeStep | app/cache/cache.py:129-135 | one turn of the purge loop, which exists only on an instance built with a purge interval (app/cache/cache.py:73-74). If the stop flag is clear, it empties the dictionary; if set, it changes nothing and the loop ends |
| Cache.LruCache.StopPurge | app/cache/cache.py:137-139 | sets the stop flag and nothing else, so calling it again changes nothing |
| Cache.CacheRegistry.constructor | app/cache/cache.py:58 | the singleton slot starts empty |
| Cache.CacheRegistry.GetInstance | app/cache/cache.py:76-89 | an empty slot is filled with a fresh, empty cache built from the arguments. A filled slot's cache is returned and the arguments are ignored |
| Cache.CacheRegistry.DeleteInstance | app/cache/cache.py:91-95 | the slot is empty afterwards |
| RateLimit.Prune | app/middleware/rate_limiter.py:65-69 | keeps exactly the timestamps `t` of the input with `now - t <= window` (inclusive boundary), and never lengthens the sequence |
| RateLimit.PruneAppend | app/middleware/rate_limiter.py:65-69 | pruning a concatenation is concatenating the prunings, so the kept entries keep their relative order |
| RateLimit.PruneKeepsRecent | app/middleware/rate_limiter.py:65-69 | a sequence lying wholly within the window is kept unchanged |
| RateLimit.PruneDropsStale | app/middleware/rate_limiter.py:65-69 | a sequence lying wholly outside the window is dropped |
| RateLimit.Admit | app/middleware/rate_limiter.py:64-76 | one global check: afterwards the stored entries are exactly those inside the window, plus `now` if admitted. An admitted request is stored last and never takes the count past `limit`; a rejection happens only when `limit` entries are already inside the window |
| RateLimit.AdmitKeepsBound | app/middleware/rate_limiter.py:71-76 | a stored sequence of at most `limit` entries stays within `limit` after an admission check |
| RateLimit.StaleEntriesDoNotCount | app/middleware/rate_limiter.py:65-76 | timestamps older than the window change neither the decision nor the stored sequence |
| RateLimit.Run | app/middleware/rate_limiter.py:62-76 | successive admission checks give one decision per arrival |
| RateLimit.RunKeepsBound | app/middleware/rate_limiter.py:65-76 | starting within the limit (for example empty), the stored sequence never exceeds `limit`, however many requests arrive |
| RateLimit.BurstAtOneInstant | app/middleware/rate_limiter.py:71-76 | in a burst at one instant, with `i` entries of that instant already stored, the `j`-th request is admitted exactly when `i + j < limit` |
| RateLimit.FiveAdmittedThenRejected | app/middleware/rate_limiter.py:71-76 | with limit 5, five requests at one instant are admitted and the sixth is rejected |
| RateLimit.StaleEntryThenFiveAdmitted | app/middleware/rate_limiter.py:65-76 | with window 10 and limit 5, a 12-second-old entry blocks nothing: five requests are admitted |
| RateLimit.AdmitKey | app/middleware/rate_limiter.py:100-118 | one per-key check: the key is added only on admission, no other key is added, removed or changed, and an admitted request is stored last in its key's sequence |
| RateLimit.AdmitKeyIsAdmitOnKey | app/middleware/rate_limiter.py:103-118 | the per-key check runs the global algorithm on that key's sequence, with a missing key counting as empty. The key is created only on admission; other keys are untouched |
| RateLimit.KeysAreIsolated | app/middleware/rate_limiter.py:103-118 | a request for one key does not change the decision for another key |
| RateLimit.AdmitKeyKeepsBound | app/middleware/rate_limiter.py:103-118 | if every key's sequence is within `limit`, that stays true after a per-key check |
| RateLimit.RateLimiter.constructor | app/middleware/rate_limiter.py:40-47 | both stores start empty; window and limit are the configured ones |
| RateLimit.RateLimiter.RateLimitMiddleware | app/middleware/rate_limiter.py:62-76 | admitted exactly when the pruned count is below the limit. The stored sequence is the pruned one, with `now` appended only on admission |
| RateLimit.RateLimiter.RateLimitMiddlewarePerIp | app/middleware/rate_limiter.py:98-118 | the new history is `AdmitKey` of the old one. Other keys keep their entries, and a key appears only if it was present or the request was admitted |
| Jwt.SplitDots | app/jwt/jwt.py:84 | `split(".")` gives at least one piece, and no piece contains a dot |
| Jwt.JoinDots | app/jwt/jwt.py:84 | the inverse of `split(".")`: the joined string starts with the first piece, followed by a dot when there are more pieces |
| Jwt.CountDots | app/jwt/jwt.py:84-85 | the dot count is at most the length, and it is 0 exactly when the token has no dot |
| Jwt.JoinSplit | app/jwt/jwt.py:84 | joining the pieces of `split(".")` with dots gives back the token |
| Jwt.SplitDotFreePrefix | app/jwt/jwt.py:84 | a dot-free prefix becomes part of the first piece of `split(".")` |
| Jwt.SplitJoin | app/jwt/jwt.py:84 | the other round trip: splitting dot-free pieces joined with dots gives back the pieces |
| Jwt.SplitCount | app/jwt/jwt.py:84-85 | the number of pieces is the number of dots plus one |
| Jwt.Padding | app/jwt/jwt.py:90 | the padding is 1 to 4 `=` characters and makes the padded length a multiple of 4 |
| Jwt.PaddingOfTwo | app/jwt/jwt.py:90 | a two-character segment gets exactly "==" |
| Jwt.GetExpireTime | app/jwt/jwt.py:75-101 | the format error (500, "Invalid token format.") is raised exactly when there are not 3 segments. Every raised error has status 500 |
| Jwt.DecodeFailureIsInternalError | app/jwt/jwt.py:88-96 | a UTF-8 or JSON failure of the payload raises status 500 with a detail starting "Internal server error: " |
| Jwt.ExpiryFromClaim | app/jwt/jwt.py:98-99 | a decoded payload gives its `exp` claim as the expiry, or 0 when the claim is absent |
| Jwt.TwoSegmentTokenIsFormatError | app/jwt/jwt.py:84-86 | "invalid.token" raises the format error itself, not rewrapped |
| Jwt.GetTokenAsWritten | app/jwt/jwt.py:58-73 | `get_token` as written: no fetch is made exactly when a token is held and the clock has not reached a stored expiry; a call makes at most two fetches; a returned token is the one stored afterwards, with an expiry stored beside it |
| Jwt.Refresh | app/jwt/jwt.py:65-71 | the expiry check of `get_token`: one more fetch is made exactly when an expiry is stored and the clock has reached it, and a returned token is the stored one |
| Jwt.FirstCallFetchesOnce | app/jwt/jwt.py:58-63 | with no token held and a fetched token expiring after now: one fetch, and the token and its expiry are stored and returned |
| Jwt.ValidTokenIsReused | app/jwt/jwt.py:65-73 | a held token with `now < expire_time` is returned with no fetch and no state change |
| Jwt.ExpiredTokenIsRefetched | app/jwt/jwt.py:65-71 | with `now >= expire_time`: one fetch, the new token returned, and the expiry set to the new token's expiry less one second |
| Jwt.RunCalls | app/jwt/jwt.py:52-73 | successive `get_token` calls give one outcome per call |
| Jwt.WedgedCrashesForever | app/jwt/jwt.py:65 | a handler holding a token without an expiry crashes on every later call, whatever the clock and the fetcher give |
| Jwt.AsWrittenWedgesAfterBadFirstToken | app/jwt/jwt.py:59-65 | as written, any first token whose expiry cannot be computed (an HTTP error raised or another exception escaping) fails that call and leaves the token stored without an expiry; every later call then crashes, whatever is fetched |
| Jwt.SourceTestTokenPayload | app/jwt/jwt.py:84-90 | "header.8a.signature" has three segments, and its payload segment is padded to "8a==" |
| Jwt.SourceTestTokenWedges | app/jwt/jwt.py:59-65 | with a decoder that reports the UTF-8 failure of "8a==", that token fails the first call with status 500 and leaves the handler inconsistent |
| Jwt.GetTokenCorrected | app/jwt/jwt.py:52-73 | corrected, a token is held exactly when its expiry is, and a returned token is the stored one |
| Jwt.RefreshCorrected | app/jwt/jwt.py:65-71 | the refresh half of the corrected handler keeps token and expiry together |
| Jwt.CorrectedCrashesOnlyOnUncaughtDecode | app/jwt/jwt.py:52-73 | corrected, a call crashes only when decoding a fetched token escapes unconverted |
| Jwt.CorrectedRecoversAfterBadFirstToken | app/jwt/jwt.py:59-61 | corrected, any first token whose expiry cannot be computed leaves the handler empty, and the next call with a good token returns it |
| Jwt.JwtHandler.constructor | app/jwt/jwt.py:46-50 | a new handler holds no token and no expiry |
| Jwt.JwtHandler.GetToken | app/jwt/jwt.py:52-73 | assigning the fields one at a time gives the result, the new state and the fetch count of `GetTokenAsWritten`, and a returned token is the stored one |
| RiskUtils.NamesOf | app/utils/risk_utils.py:79-83 | the set holds the category name of every record in the list, and nothing else |
| RiskUtils.SetToList | app/utils/risk_utils.py:85 | `list(set)` lists every element of the set once and nothing else |
| RiskUtils.DeduplicateCategories | app/utils/risk_utils.py:67-85 | the result has no duplicates. It contains the top-level name and every name of both detail lists, and only those, so as a set it equals `CategoryUnion` |
| Check.CheckEthereumAddress | app/routes/check.py:37-85 | a token error is answered with its status and detail, and the cache is untouched. A hit is answered from the cache with no fetch. A fetch error is answered as is, with no new entry. Otherwise the deduplicated result is answered and cached under the raw address. The cache's capacity, purge interval and stop flag are never changed, and a cache built by the route has no purge loop |

## Left out

- Concurrency: the `asyncio` locks, `create_task` and the sleeping purge loop. Each locked
  section is one atomic method, and the purge loop is modelled one turn at a time.
  Interleavings and timing are not modelled.
- Network I/O: `fetch_new_jwt_token` and `fetch_risk_details` become inputs that give a
  value or an `HttpError`. `fetch_new_jwt_token` returning None for a reply without a
  `"token"` field is not modelled.
- Decoding and clocks: base64, UTF-8 and JSON decoding are the `decode` parameter.
  `datetime.now`, `utcnow` and `fromtimestamp` (and their local-time/UTC mismatch) become
  integers. In the rate limiter they are integers on one time scale, so a model in whole
  seconds would move the inclusive window boundary; the source compares microsecond
  readings. In the token handler they count whole seconds, the unit of `exp` and of the
  one-second margin; sub-second clock readings are not modelled. The `exp` claim is taken
  to be an integer.
- Jwt.GetExpireTime: maps every integer `exp` to `Expires`. In the source,
  `datetime.fromtimestamp` (app/jwt/jwt.py:99, outside the `try`) raises for an
  out-of-range timestamp, and that exception escapes unconverted.
- HTTP plumbing: `Request`, `call_next` and `JSONResponse`. Admission is a boolean, and the
  429 body is not modelled.
- Logging, the timing metrics of the route, configuration loading, application startup and
  shutdown wiring, and pydantic validation. Only the field shapes of the models are kept.
- `get_current_token` (app/jwt/jwt.py:107-115): the route takes its outcome as an input, so
  the route and the token handler are not composed.
- Check.CheckEthereumAddress: models `if cached_result:` as "the key is present". A cached
  `CheckEndpointResponse` is a pydantic model with no `__bool__` or `__len__`, so it is
  always truthy.
- RiskUtils.SetToList: the order of `list(set)` is left unspecified rather than modelled as
  Python's hash order.
- Jwt.JwtHandler.GetToken: reads the clock once per call. In the source the clock is read
  after the first fetch.
- Jwt.JwtHandler.GetToken models the code as written. The corrected behaviour is stated on
  values by `Jwt.GetTokenCorrected`, because nothing else in the model calls the handler.

## Findings

| source | as written | input that shows it | evidently intended | confidence | as-written member | corrected member |
|---|---|---|---|---|---|---|
| app/jwt/jwt.py:59-65 | `get_token` stores a freshly fetched token in `self.token` before `_get_expire_time` runs. If that raises, the token stays set and `expire_time` stays None. Every later call skips the fetch and compares the clock with None, which raises TypeError. | A first fetch returns a token whose expiry cannot be computed, for example the source test's "header.8a.signature": its payload "8a==" decodes to the byte 0xF1, which is not UTF-8, so that call fails with status 500. (A token such as "a.b.c" fails earlier, in base64, and that exception escapes the call unconverted.) Every call after it crashes, whatever the fetcher returns. | A token is stored only together with its expiry, so a failed call leaves the handler as it was and the next call fetches again | not executed; high | Jwt.AsWrittenWedgesAfterBadFirstToken | Jwt.GetTokenCorrected |
