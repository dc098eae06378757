/**
 * The rate-limiting state of TokenBucketRateLimiterMiddleware as objects:
 * a table from client key to a mutable bucket, and the check that Invoke
 * runs on every request. Each check is one sequential, atomic call; the
 * clock reading is a parameter.
 */
module TokenBucketMiddleware {
  import opened TokenBucketSpec

  /** One client's bucket; a check refills and spends from it in place. */
  class TokenBucket {
    var tokens: real
    var lastRefill: real

    constructor (tokens: real, lastRefill: real)
      ensures this.tokens == tokens && this.lastRefill == lastRefill
    {
      this.tokens := tokens;
      this.lastRefill := lastRefill;
    }

    function State(): BucketState
      reads this
    {
      BucketState(tokens, lastRefill)
    }
  }

  /** The key-to-bucket table with the admission check. */
  class RateLimiter {
    var buckets: map<string, TokenBucket>

    /**
     * Each key owns its own bucket object, and no bucket holds more than
     * the capacity.
     */
    ghost predicate Valid()
      reads this, buckets.Values
    {
      (forall k1, k2 :: k1 in buckets && k2 in buckets && k1 != k2 ==> buckets[k1] != buckets[k2])
      && (forall k :: k in buckets ==> buckets[k].tokens <= BucketCapacity)
    }

    /** The table as values: what each key's bucket holds now. */
    ghost function Table(): map<string, BucketState>
      reads this, buckets.Values
    {
      map k | k in buckets :: buckets[k].State()
    }

    constructor ()
      ensures Valid() && Table() == map[]
    {
      buckets := map[];
    }

    /**
     * Check one request from `key` at clock reading `now`: get or create the
     * key's bucket, refill it, stamp it, then reject below one token or
     * spend one token. The table changes exactly as CheckTable says; an
     * existing key keeps its bucket object, a new key gets a fresh one.
     */
    method Check(key: string, now: real) returns (decision: Decision)
      requires Valid()
      modifies this, buckets.Values
      ensures Valid() && key in buckets
      ensures key in old(buckets) ==> buckets == old(buckets)
      ensures key !in old(buckets) ==> fresh(buckets[key]) && buckets == old(buckets)[key := buckets[key]]
      ensures forall k :: k in old(buckets) && k != key ==> unchanged(old(buckets)[k])
      ensures TableStep(decision, Table()) == CheckTable(old(Table()), key, now)
    {
      ghost var before := Table();
      var bucket: TokenBucket;
      if key in buckets {
        bucket := buckets[key];
      } else {
        bucket := new TokenBucket(BucketCapacity, now);
        buckets := buckets[key := bucket];
      }
      ghost var created := GetOrAdd(before, key, now);
      assert bucket.State() == created;

      var elapsed := now - bucket.lastRefill;
      var refill := elapsed * RefillRate;
      bucket.tokens := Min(BucketCapacity, bucket.tokens + refill);
      bucket.lastRefill := now;

      if bucket.tokens < 1.0 {
        decision := Rejected(RetryAfterSeconds);
      } else {
        bucket.tokens := bucket.tokens - 1.0;
        decision := Admitted;
      }
      assert Step(decision, bucket.State()) == CheckBucket(created, now);
      TableAfterWrite(before, key, bucket);
    }

    /**
     * Once only `bucket`, the object stored under `key`, has been written,
     * the table differs from `before` only at `key`.
     */
    lemma TableAfterWrite(before: map<string, BucketState>, key: string, bucket: TokenBucket)
      requires key in buckets && buckets[key] == bucket
      requires forall k1, k2 :: k1 in buckets && k2 in buckets && k1 != k2 ==> buckets[k1] != buckets[k2]
      requires buckets.Keys == before.Keys + {key}
      requires forall k :: k in before && k != key ==> buckets[k].State() == before[k]
      ensures Table() == before[key := bucket.State()]
    {
    }
  }
}
