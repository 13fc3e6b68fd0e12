/**
 The rate limiters as the objects that hold their state: the in-memory limiter of
 `pkg/goquota/rate_limiter_memory.go`, the one inside `storage/memory/memory.go`, and the Redis token
 bucket script of `storage/redis/redis.go`.  Each call is proved to be one step of the bucket or window
 of its key, and to leave the other keys alone.
 */
module RateLimiters {
  import opened TokenBucket
  import SW = SlidingWindow

  datatype Config = Config(rate: int, window: int, burst: int)

  function BucketFor(buckets: map<string, Bucket>, key: string, c: Config, now: int): Bucket {
    if key in buckets then buckets[key] else Fresh(if c.burst <= 0 then c.rate else c.burst, c.rate, c.window, now)
  }

  function WindowFor(windows: map<string, SW.Window>, key: string, c: Config): SW.Window {
    if key in windows then windows[key] else SW.Window([], c.window, c.rate)
  }

  /** A new caller starts with a full bucket of the burst, or of the rate if no burst is set, and with an empty
      window of the rate; a known caller keeps what it has. */
  lemma NewCallers(buckets: map<string, Bucket>, windows: map<string, SW.Window>, key: string, c: Config, now: int)
    ensures var b := BucketFor(buckets, key, c, now);
            && (key !in buckets ==>
                  && b.tokens == b.capacity == (if c.burst > 0 then c.burst else c.rate)
                  && b.rate == c.rate && b.window == c.window && b.lastRefill == now)
            && (key in buckets ==> b == buckets[key])
    ensures var w := WindowFor(windows, key, c);
            && (key !in windows ==> w.timestamps == [] && w.limit == c.rate && w.window == c.window)
            && (key in windows ==> w == windows[key])
  {
  }

  class MemoryRateLimiter {
    var tokenBuckets: map<string, Bucket>
    var slidingWindows: map<string, SW.Window>

    ghost predicate Valid()
      reads this
    {
      && (forall k :: k in tokenBuckets ==> TokenBucket.Valid(tokenBuckets[k]))
      && (forall k :: k in slidingWindows ==> slidingWindows[k].limit >= 1)
    }

    constructor ()
      ensures Valid() && tokenBuckets == map[] && slidingWindows == map[]
    {
      tokenBuckets, slidingWindows := map[], map[];
    }

    /** A denied caller is told the bucket's `DeniedReset`, or to wait a window if the bucket never refills; an
        admitted one, when the bucket is full, which a rate of zero leaves open. */
    method AllowTokenBucket(key: string, config: Config, now: int)
      returns (allowed: bool, remaining: int, resetTime: int)
      requires Valid() && config.rate >= 0 && config.window >= 1
      modifies this`tokenBuckets
      ensures Valid()
      ensures var b := BucketFor(old(tokenBuckets), key, config, now);
              && tokenBuckets == old(tokenBuckets)[key := Allow(b, now).0]
              && allowed == Allow(b, now).1
              && remaining == tokenBuckets[key].tokens
              && (allowed && b.rate > 0 ==> resetTime == AdmittedReset(tokenBuckets[key], now))
              && (!allowed ==> resetTime == if b.rate > 0 then DeniedReset(tokenBuckets[key], now) else now + b.window)
    {
      if key !in tokenBuckets {
        var capacity := config.burst;
        if capacity <= 0 {
          capacity := config.rate;
        }
        tokenBuckets := tokenBuckets[key := Bucket(capacity, now, capacity, config.rate, config.window)];
      }
      var bucket := tokenBuckets[key];
      RefillBound(bucket, now);
      var elapsed := now - bucket.lastRefill;
      if elapsed > 0 {
        var tokensToAdd := bucket.rate * elapsed / bucket.window;
        if tokensToAdd > 0 {
          bucket := bucket.(tokens := Min(bucket.tokens + tokensToAdd, bucket.capacity));
          bucket := bucket.(lastRefill := now);
        }
      }
      if bucket.tokens <= 0 {
        tokenBuckets := tokenBuckets[key := bucket];
        var nextTokenTime := now + bucket.window;
        if bucket.rate > 0 {
          nextTokenTime := bucket.lastRefill + bucket.window / bucket.rate;
          if nextTokenTime < now {
            nextTokenTime := now + bucket.window / bucket.rate;
          }
        }
        return false, 0, nextTokenTime;
      }
      bucket := bucket.(tokens := bucket.tokens - 1);
      tokenBuckets := tokenBuckets[key := bucket];
      resetTime := now + bucket.window;
      if bucket.tokens < bucket.capacity {
        var tokensNeeded := bucket.capacity - bucket.tokens;
        if bucket.rate > 0 {
          resetTime := now + tokensNeeded * bucket.window / bucket.rate;
        } else {
          resetTime := *;  // a floating-point infinity as an integer
        }
      }
      return true, bucket.tokens, resetTime;
    }

    method AllowSlidingWindow(key: string, config: Config, now: int)
      returns (allowed: bool, remaining: int, resetTime: int)
      requires Valid() && config.rate >= 1
      modifies this`slidingWindows
      ensures Valid()
      ensures var w := WindowFor(old(slidingWindows), key, config);
              && slidingWindows == old(slidingWindows)[key := SW.Allow(w, now).0]
              && allowed == SW.Allow(w, now).1
              && var kept := slidingWindows[key].timestamps;
                 && kept != [] && resetTime == kept[0] + w.window
                 && remaining == if allowed then w.limit - |kept| else 0
    {
      if key !in slidingWindows {
        slidingWindows := slidingWindows[key := SW.Window([], config.window, config.rate)];
      }
      var window := slidingWindows[key];
      var cutoff := now - window.window;
      var validTimestamps := [];
      for i := 0 to |window.timestamps|
        invariant validTimestamps == SW.Live(window.timestamps[..i], cutoff)
        modifies {}
      {
        var ts := window.timestamps[i];
        SW.LiveAppend(window.timestamps[..i], ts, cutoff);
        assert window.timestamps[..i + 1] == window.timestamps[..i] + [ts];
        if ts > cutoff {
          validTimestamps := validTimestamps + [ts];
        }
      }
      assert window.timestamps[..|window.timestamps|] == window.timestamps;
      assert validTimestamps == SW.Live(window.timestamps, cutoff);
      window := window.(timestamps := validTimestamps);
      if |window.timestamps| >= window.limit {
        slidingWindows := slidingWindows[key := window];
        return false, 0, window.timestamps[0] + window.window;
      }
      window := window.(timestamps := window.timestamps + [now]);
      slidingWindows := slidingWindows[key := window];
      remaining := window.limit - |window.timestamps|;
      resetTime := now + window.window;
      if |window.timestamps| > 0 {
        resetTime := window.timestamps[0] + window.window;
      }
      return true, remaining, resetTime;
    }
  }

  class StorageSlidingWindows {
    var slidingWindows: map<string, SW.Window>

    ghost predicate Valid()
      reads this
    {
      forall k :: k in slidingWindows ==> slidingWindows[k].limit >= 1
    }

    constructor ()
      ensures Valid() && slidingWindows == map[]
    {
      slidingWindows := map[];
    }

    method CheckSlidingWindow(key: string, config: Config, now: int)
      returns (allowed: bool, remaining: int, resetTime: int)
      requires Valid() && config.rate >= 1
      modifies this
      ensures Valid()
      ensures var w := WindowFor(old(slidingWindows), key, config);
              && slidingWindows == old(slidingWindows)[key := SW.StorageAllow(w, now).0]
              && allowed == SW.StorageAllow(w, now).1
              && var kept := slidingWindows[key].timestamps;
                 && kept != [] && resetTime == kept[0] + w.window
                 && remaining == if allowed then w.limit - |kept| else 0
    {
      if key !in slidingWindows {
        slidingWindows := slidingWindows[key := SW.Window([], config.window, config.rate)];
      }
      var window := slidingWindows[key];
      var cutoff := now - window.window;
      var validStart := 0;
      var i := 0;
      while i < |window.timestamps|
        invariant i <= |window.timestamps| && validStart == 0
        invariant SW.ValidStart(window.timestamps, cutoff, 0) == SW.ValidStart(window.timestamps, cutoff, i)
        modifies {}
      {
        if window.timestamps[i] > cutoff {
          validStart := i;
          break;
        }
        i := i + 1;
      }
      assert validStart == SW.ValidStart(window.timestamps, cutoff, 0);
      window := window.(timestamps := window.timestamps[validStart..]);
      if |window.timestamps| >= window.limit {
        slidingWindows := slidingWindows[key := window];
        return false, 0, window.timestamps[0] + window.window;
      }
      window := window.(timestamps := window.timestamps + [now]);
      slidingWindows := slidingWindows[key := window];
      remaining := window.limit - |window.timestamps|;
      resetTime := now + window.window;
      if |window.timestamps| > 0 {
        resetTime := window.timestamps[0] + window.window;
      }
      return true, remaining, resetTime;
    }
  }

  /** A Redis hash of the script: the two fields it stores.  Rate, window and burst come with the call. */
  datatype Hash = Hash(tokens: int, lastRefill: int)

  class RedisTokenBuckets {
    var data: map<string, Hash>

    ghost predicate Valid()
      reads this
    {
      forall k :: k in data ==> 0 <= data[k].tokens
    }

    constructor ()
      ensures Valid() && data == map[]
    {
      data := map[];
    }

    /** The script makes the step of the in-memory bucket with the same settings, and after a denial
        names the exact retry time.  Tokens left from a larger burst are kept until the next refill. */
    method TokenBucket(key: string, now: int, rate: int, window: int, burst: int)
      returns (allowed: bool, remaining: int, resetTime: int)
      requires Valid() && rate >= 1 && window >= 1 && burst >= 1
      modifies this
      ensures Valid()
      ensures var b := if key in old(data)
                       then Bucket(old(data)[key].tokens, old(data)[key].lastRefill, burst, rate, window)
                       else Fresh(burst, rate, window, now);
              var (c, ok) := Allow(b, now);
              && data == old(data)[key := Hash(c.tokens, c.lastRefill)]
              && allowed == ok && remaining == c.tokens
              && (!allowed ==> resetTime == RedisDeniedReset(c))
              && (allowed ==> resetTime == if remaining < burst then RedisAdmittedReset(c, now) else now + window)
    {
      var tokens, lastRefill := burst, now;
      if key in data {
        tokens, lastRefill := data[key].tokens, data[key].lastRefill;
      }
      ghost var b := Bucket(tokens, lastRefill, burst, rate, window);
      RefillKeepsSign(b, now);
      var elapsed := now - lastRefill;
      if elapsed > 0 {
        var tokensToAdd := rate * elapsed / window;
        if tokensToAdd > 0 {
          tokens := Min(tokens + tokensToAdd, burst);
          lastRefill := now;
        }
      }
      allowed, remaining, resetTime := true, tokens, now + window;
      if tokens <= 0 {
        allowed, remaining := false, 0;
        resetTime := lastRefill + CeilDiv(window, rate);
      } else {
        tokens := tokens - 1;
        remaining := tokens;
        if tokens < burst {
          var tokensNeeded := burst - tokens;
          resetTime := now + CeilDiv(tokensNeeded * window, rate);
        }
      }
      data := data[key := Hash(tokens, lastRefill)];
    }
  }
}
