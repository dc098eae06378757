# Token-bucket rate limiter — Dafny model

This project models the per-client token-bucket admission rule of the
`TokenBucketRateLimiterMiddleware` of the RateLimiter ASP.NET application.
Every request is identified by a key (the client's address). On the first request
from a key, the middleware creates a full bucket of 10 tokens. Every request
then refills the key's bucket at 1 token per elapsed second, capped at 10, and
stamps it with the current time. It rejects the request (HTTP 429, `Retry-After: 5`) when fewer
than one whole token is left, and otherwise spends exactly one token and lets
the request through.

Two modules:

- `TokenBucketSpec` (`token_bucket_spec.dfy`) is the value-level specification.
  It holds the constants `BucketCapacity = 10`, `RefillRate = 1` and
  `RetryAfterSeconds = 5`. A bucket is the value `BucketState(tokens, lastRefill)`.
  `Refill` is the refill formula, `GetOrAdd` the get-or-create step and
  `CheckBucket` the refill/stamp/reject-or-consume step. `CheckTable` is one
  check on the whole key-to-bucket table. `CheckRepeatedly` and `Replay` run
  many checks in a row. The lemmas state what the limiter promises: refill
  bounds, burst size, waiting, per-key independence, and bounds under a
  monotone clock.
- `TokenBucketMiddleware` (`token_bucket_middleware.dfy`) is the imperative form
  of the source. `TokenBucket` is a class whose `tokens` and `lastRefill`
  fields are updated in place. `RateLimiter` holds the table as a
  `map<string, TokenBucket>` field. `RateLimiter.Check` performs the source's
  steps in the source's order. It is proved to change the table exactly as
  `CheckTable` says. It also reuses the bucket object of a known key, adds a
  fresh object for a new key, and leaves every other key's bucket object
  untouched.

Tokens and seconds are exact `real`s. The clock reading is the parameter `now`
of each check.

The code and the design description disagree on one point. The design asks
for a negative elapsed time (a clock that moved back) to be clamped to zero.
The code does not clamp it. The model follows the code:
`RefillBackwardsClockLowers` shows that such a refill removes tokens. So the
lower bound `0 <= tokens` is proved only for a clock that never goes back
(`CheckTablePreservesBounds`, `ReplayKeepsBounds`). The upper bound
`tokens <= 10` holds for any clock (`Refill`, `RateLimiter.Valid`).

## Model

| member | source | states |
|---|---|---|
| `TokenBucketSpec.Refill` | RateLimiter/middleware/token-bucket-middleware.cs:37-41 | a refilled bucket never holds more than the capacity 10, nor more than its old tokens plus elapsed seconds times the rate |
| `TokenBucketSpec.RefillNeverDecreases` | RateLimiter/middleware/token-bucket-middleware.cs:37-41 | with a clock that has not gone back, a refill never lowers the token count |
| `TokenBucketSpec.RefillBelowCapacity` | RateLimiter/middleware/token-bucket-middleware.cs:40-41 | when the sum stays under the cap, exactly elapsed × rate tokens are added |
| `TokenBucketSpec.RefillSaturates` | RateLimiter/middleware/token-bucket-middleware.cs:41 | waiting long enough leaves exactly the capacity, never more |
| `TokenBucketSpec.RefillBackwardsClockLowers` | RateLimiter/middleware/token-bucket-middleware.cs:37-41 | negative elapsed time is not clamped: a clock moved back by s seconds removes s × rate tokens |
| `TokenBucketSpec.RefillNoElapsedTime` | RateLimiter/middleware/token-bucket-middleware.cs:37-41 | a refill at the instant of the previous one leaves a bucket within capacity unchanged |
| `TokenBucketSpec.GetOrAdd` | RateLimiter/middleware/token-bucket-middleware.cs:26-30 | a known key's stored bucket is used; a new key gets a full bucket (10 tokens) stamped now |
| `TokenBucketSpec.CheckBucket` | RateLimiter/middleware/token-bucket-middleware.cs:34-55 | every check stamps lastRefill = now and keeps tokens at most 10; admitted iff the refilled count is at least 1; a rejection carries hint 5; the refilled tokens are either all kept (reject) or one is spent (admit) |
| `TokenBucketSpec.CheckTable` | RateLimiter/middleware/token-bucket-middleware.cs:26-55 | the key set only gains the checked key; every other key's bucket is unchanged; a new key is admitted and left with 9 tokens stamped now; a known key's bucket goes through CheckBucket |
| `TokenBucketSpec.CheckTableDecision` | RateLimiter/middleware/token-bucket-middleware.cs:37-55 | for new and known keys alike: admitted iff the tokens available after refill are at least 1, the bucket keeps the refilled count minus what was spent, is stamped now, and a rejection carries hint 5 |
| `TokenBucketSpec.CheckTablePreservesBounds` | RateLimiter/middleware/token-bucket-middleware.cs:37-55 | with a clock that does not go back, a check keeps every bucket within 0..10 tokens |
| `TokenBucketSpec.CheckRepeatedly` | RateLimiter/middleware/token-bucket-middleware.cs:26-55 | n checks of one key give n decisions, add at most that key, and leave every other key's bucket unchanged |
| `TokenBucketSpec.Admissible` | RateLimiter/middleware/token-bucket-middleware.cs:46 | the number of immediate admissions that r refilled tokens allow is whole: at most r, at most n, and fewer than n only when r has less than one more whole token |
| `TokenBucketSpec.CheckRepeatedlyAdmits` | RateLimiter/middleware/token-bucket-middleware.cs:37-55 | in a burst of checks at one instant, the i-th is admitted iff at least i+1 tokens were available after the first refill; fractional tokens never admit; rejections carry hint 5; the bucket ends with the available tokens minus those admitted |
| `TokenBucketSpec.FreshKeyBurst` | RateLimiter/middleware/token-bucket-middleware.cs:26-55 | a new key gets exactly 10 admissions at one instant, and the 11th check is rejected with hint 5 |
| `TokenBucketSpec.FreshKeyBurstEmpties` | RateLimiter/middleware/token-bucket-middleware.cs:26-55 | after those 11 checks the bucket holds 0 tokens and is stamped now |
| `TokenBucketSpec.WaitThenBurst` | RateLimiter/middleware/token-bucket-middleware.cs:37-46 | an empty bucket that waits d seconds (d × rate below the cap) admits exactly floor(d × rate) immediate checks, then rejects |
| `TokenBucketSpec.BurstThenWaitScenario` | RateLimiter/middleware/token-bucket-middleware.cs:26-55 | a new key: 10 admitted and the 11th rejected; 3 seconds later 3 admitted and the 4th rejected |
| `TokenBucketSpec.KeysAreIndependent` | RateLimiter/middleware/token-bucket-middleware.cs:26-55 | however many checks one key has used, a different new key still gets its full 10 admissions and a rejection on the 11th |
| `TokenBucketSpec.Replay` | RateLimiter/middleware/token-bucket-middleware.cs:21-56 | a stream of requests gives one decision per request, keeps every existing key, and adds every requested key |
| `TokenBucketSpec.ReplayKeepsBounds` | RateLimiter/middleware/token-bucket-middleware.cs:37-55 | under a clock that never goes back, every bucket stays within 0..10 tokens over any stream of requests |
| `TokenBucketSpec.ReplayOtherKeysUnchanged` | RateLimiter/middleware/token-bucket-middleware.cs:26-56 | a key that no request names keeps its bucket exactly as it was |
| `TokenBucketMiddleware.TokenBucket.constructor` | RateLimiter/middleware/token-bucket-middleware.cs:26-30 | a new bucket object holds the given tokens and timestamp |
| `TokenBucketMiddleware.RateLimiter.constructor` | RateLimiter/middleware/token-bucket-middleware.cs:9-10 | the table starts empty and satisfies the invariant |
| `TokenBucketMiddleware.RateLimiter.Check` | RateLimiter/middleware/token-bucket-middleware.cs:21-56 | the in-place check keeps the invariant (one bucket object per key, at most 10 tokens); reuses a known key's bucket object or adds a fresh one; leaves other keys' buckets unchanged; decision and new table equal CheckTable's |

## Left out

- ASP.NET plumbing is not modelled: the `RequestDelegate`, the `HttpContext`, the constructor, `await _next(context)`, and writing status 429, the `Retry-After` header and the content type. A check returns the decision and the hint instead.
- Extraction of the key from `RemoteIpAddress`, with its `"unknown"` fallback, is not modelled. The key is any string the caller passes.
- Concurrency is not modelled: the `lock (bucket)` and the atomicity of `ConcurrentDictionary.GetOrAdd`. Each check is one sequential, atomic call.
- `DateTime.UtcNow` is not modelled; the caller passes the clock reading `now` as a `real` number of seconds. The source reads the clock twice for a new key: once in the `GetOrAdd` factory and once inside the lock. The model uses one reading for both. Under a clock that does not go back this gives the same result, because a full bucket stays full after the refill.
- IEEE-754 `double` rounding of tokens and elapsed seconds is not modelled; arithmetic is exact.
- The source's table is a `static` field shared by every middleware instance. The model makes it a field of one `RateLimiter` object.
- No eviction exists in the source. The table never shrinks, and the model does not either.
