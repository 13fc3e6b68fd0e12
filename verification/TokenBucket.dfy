/**
 The token bucket of `pkg/goquota/rate_limiter_memory.go`, `storage/memory/memory.go` and the Redis
 script.  Times and windows are integer ticks, and a refill is the exact floor of `rate * elapsed / window`.
 */
module TokenBucket {

  datatype Bucket = Bucket(tokens: int, lastRefill: int, capacity: int, rate: int, window: int)

  predicate Valid(b: Bucket) {
    0 <= b.tokens <= b.capacity && b.rate >= 0 && b.window >= 1
  }

  function Min(a: int, b: int): int {
    if a < b then a else b
  }

  function CeilDiv(a: int, b: int): int
    requires b > 0
  {
    (a + b - 1) / b
  }

  function Fresh(capacity: int, rate: int, window: int, now: int): Bucket {
    Bucket(capacity, now, capacity, rate, window)
  }

  function Refill(b: Bucket, now: int): Bucket
    requires b.window >= 1
  {
    var added := b.rate * (now - b.lastRefill) / b.window;
    if now > b.lastRefill && added > 0
    then b.(tokens := Min(b.tokens + added, b.capacity), lastRefill := now)
    else b
  }

  /** One request: the bucket afterwards, and whether the request is admitted. */
  function Allow(b: Bucket, now: int): (Bucket, bool)
    requires b.window >= 1
  {
    var r := Refill(b, now);
    if r.tokens <= 0 then (r, false) else (r.(tokens := r.tokens - 1), true)
  }

  function RunAll(b: Bucket, nows: seq<int>): (Bucket, nat)
    requires b.window >= 1
    decreases |nows|
  {
    if nows == [] then (b, 0)
    else
      var (c, ok) := Allow(b, nows[0]);
      var (d, n) := RunAll(c, nows[1..]);
      (d, n + if ok then 1 else 0)
  }

  // ---------- admission bounds ----------

  lemma RefillBound(b: Bucket, now: int)
    requires Valid(b)
    ensures var r := Refill(b, now);
            && Valid(r) && r.lastRefill >= b.lastRefill && b.tokens <= r.tokens
            && r.lastRefill <= (if now < b.lastRefill then b.lastRefill else now)
            && r.(tokens := 0, lastRefill := 0) == b.(tokens := 0, lastRefill := 0)
            && b.window * (r.tokens - b.tokens) <= b.rate * (r.lastRefill - b.lastRefill)
            && (now > r.lastRefill ==> b.rate * (now - r.lastRefill) < b.window)
  {
    var e := b.rate * (now - b.lastRefill);
    assert b.window * (e / b.window) <= e < b.window * (e / b.window) + b.window;
    var r := Refill(b, now);
    if r != b {
      assert e / b.window > 0;
      Monotone(b.window, r.tokens - b.tokens, e / b.window);
    } else if now > b.lastRefill {
      NonNegative(b.rate, now - b.lastRefill);
      assert e / b.window == 0;
    }
  }

  lemma RefillKeepsSign(b: Bucket, now: int)
    requires b.window >= 1 && b.capacity >= 0 && b.tokens >= 0
    ensures Refill(b, now).tokens >= 0
  {
  }

  lemma Monotone(w: int, x: int, y: int)
    requires w >= 0 && x <= y
    ensures w * x <= w * y
  {
  }

  lemma NonNegative(x: int, y: int)
    requires x >= 0 && y >= 0
    ensures x * y >= 0
  {
  }

  /** The admission bound: for any readings of the clock, in any order, tokens stay within the capacity
      and what was admitted is paid for by what was there and by the time that was refilled. */
  lemma {:induction false} AdmissionBound(b: Bucket, nows: seq<int>)
    requires Valid(b)
    ensures var (d, n) := RunAll(b, nows);
            && Valid(d) && d.lastRefill >= b.lastRefill
            && d.(tokens := 0, lastRefill := 0) == b.(tokens := 0, lastRefill := 0)
            && b.window * (n + d.tokens - b.tokens) <= b.rate * (d.lastRefill - b.lastRefill)
            && (d.lastRefill == b.lastRefill || d.lastRefill in nows)
    decreases |nows|
  {
    if nows != [] {
      AllowBound(b, nows[0]);
      var (c, ok) := Allow(b, nows[0]);
      hide Allow;
      AdmissionBound(c, nows[1..]);
      var (d, n) := RunAll(c, nows[1..]);
      var one := if ok then 1 else 0;
      Distribute(b.window, one + c.tokens - b.tokens, n + d.tokens - c.tokens);
      Distribute(b.rate, c.lastRefill - b.lastRefill, d.lastRefill - c.lastRefill);
    }
  }

  lemma AllowBound(b: Bucket, now: int)
    requires Valid(b)
    ensures var (c, ok) := Allow(b, now);
            && Valid(c) && c.lastRefill >= b.lastRefill && (c.lastRefill == b.lastRefill || c.lastRefill == now)
            && c.(tokens := 0, lastRefill := 0) == b.(tokens := 0, lastRefill := 0)
            && b.window * ((if ok then 1 else 0) + c.tokens - b.tokens) <= b.rate * (c.lastRefill - b.lastRefill)
  {
    RefillBound(b, now);
  }

  lemma Distribute(w: int, x: int, y: int)
    ensures w * (x + y) == w * x + w * y
  {
  }

  /** Any requests whose clock readings lie within an interval of length `span` are admitted at most
      `capacity + ceil(rate * span / window)` times, although refills discard fractions of a token. */
  lemma SpanBound(b: Bucket, nows: seq<int>, from: int, span: nat)
    requires Valid(b) && forall k :: 0 <= k < |nows| ==> from <= nows[k] <= from + span
    ensures RunAll(b, nows).1 <= b.capacity + CeilDiv(b.rate * span, b.window)
  {
    hide *;
    NothingAdmitted(b);
    if nows == [] {
      NonNegative(b.rate, span);
      CeilNonNegative(b.rate * span, b.window);
    } else {
      var t := nows[0];
      RefillBound(b, t);
      RefilledFirst(b, nows);
      var r := Refill(b, t);
      AdmissionBound(r, nows);
      var (d, n) := RunAll(r, nows);
      SpanArithmetic(b, r, d, n, t, from, span);
    }
  }

  lemma NothingAdmitted(b: Bucket)
    requires Valid(b)
    ensures b.window >= 1 && b.rate >= 0 && b.capacity >= 0 && RunAll(b, []) == (b, 0)
  {
  }

  lemma SpanArithmetic(b: Bucket, r: Bucket, d: Bucket, n: nat, t: int, from: int, span: nat)
    requires Valid(b) && Valid(r) && Valid(d) && from <= t
    requires b.capacity == r.capacity && b.rate == r.rate && b.window == r.window
    requires b.window * (n + d.tokens - r.tokens) <= b.rate * (d.lastRefill - r.lastRefill)
    requires d.lastRefill == r.lastRefill || r.lastRefill < d.lastRefill <= from + span
    requires t > r.lastRefill ==> b.rate * (t - r.lastRefill) < b.window
    ensures n <= b.capacity + CeilDiv(b.rate * span, b.window)
  {
    var over := n - b.capacity;
    Monotone(b.window, over, n + d.tokens - r.tokens);
    NonNegative(b.rate, span);
    if d.lastRefill == r.lastRefill {
      assert b.rate * (d.lastRefill - r.lastRefill) == 0;
    } else if t > r.lastRefill {
      Distribute(b.rate, d.lastRefill - t, t - r.lastRefill);
      Monotone(b.rate, d.lastRefill - t, span);
    } else {
      Monotone(b.rate, d.lastRefill - r.lastRefill, span);
    }
    assert b.window * over <= b.rate * span + b.window - 1;
    QuotientBound(b.window, over, b.rate * span + b.window - 1);
  }

  lemma CeilNonNegative(a: int, b: int)
    requires a >= 0 && b >= 1
    ensures CeilDiv(a, b) >= 0
  {
  }

  lemma RefilledFirst(b: Bucket, nows: seq<int>)
    requires Valid(b) && nows != []
    ensures RunAll(Refill(b, nows[0]), nows) == RunAll(b, nows)
  {
    assert Refill(Refill(b, nows[0]), nows[0]) == Refill(b, nows[0]);
  }

  lemma QuotientBound(w: int, x: int, y: int)
    requires w >= 1 && w * x <= y
    ensures x <= y / w
  {
    if x >= y / w + 1 {
      Monotone(w, y / w + 1, x);
    }
  }

  /** Exactly when a request is denied: the bucket is empty, and too little time has passed for a token. */
  lemma DeniedIff(b: Bucket, now: int)
    requires Valid(b) && b.capacity >= 1
    ensures Allow(b, now).1 <==> b.tokens > 0 || (now > b.lastRefill && b.rate * (now - b.lastRefill) >= b.window)
    ensures Allow(b, now).1 ==> Allow(b, now).0.tokens == Refill(b, now).tokens - 1
  {
    if now > b.lastRefill {
      NonNegative(b.rate, now - b.lastRefill);
      AtLeastOne(b.rate * (now - b.lastRefill), b.window);
    }
  }

  /** A burst: of any requests at the time of the last refill, as many are admitted as there are tokens. */
  lemma {:induction false} BurstAdmits(b: Bucket, nows: seq<int>)
    requires Valid(b) && forall i :: 0 <= i < |nows| ==> nows[i] == b.lastRefill
    ensures RunAll(b, nows).1 == Min(b.tokens, |nows|)
    decreases |nows|
  {
    if nows != [] {
      BurstAdmits(Allow(b, nows[0]).0, nows[1..]);
    }
  }

  // ---------- retry times ----------

  /** The reset time of a denied request, as the in-memory versions compute it. */
  function DeniedReset(b: Bucket, now: int): int
    requires b.rate >= 1
  {
    var next := b.lastRefill + b.window / b.rate;
    if next < now then now + b.window / b.rate else next
  }

  /** The same, as the Redis script computes it. */
  function RedisDeniedReset(b: Bucket): int
    requires b.rate >= 1
  {
    b.lastRefill + CeilDiv(b.window, b.rate)
  }

  /** After a denial Redis names exactly the first tick at which a lone next request is admitted.  The
      in-memory floor is that tick exactly when the rate divides the window, otherwise the one before, and
      its second branch is never taken. */
  lemma RetryTimes(b: Bucket, now: int, later: int)
    requires Valid(b) && b.rate >= 1 && b.capacity >= 1 && !Allow(b, now).1
    ensures var d := Allow(b, now).0;
            && (Allow(d, later).1 <==> later >= RedisDeniedReset(d))
            && d.lastRefill + d.window / d.rate >= now
            && RedisDeniedReset(d) - 1 <= DeniedReset(d, now) <= RedisDeniedReset(d)
            && (DeniedReset(d, now) == RedisDeniedReset(d) <==> d.window % d.rate == 0)
            && now < RedisDeniedReset(d)
  {
    RefillBound(b, now);
    var d := Allow(b, now).0;
    assert d.tokens == 0;
    CeilFloor(d.window, d.rate);
    CeilIsFloor(d.window, d.rate);
    CeilLeast(d.window, d.rate, later - d.lastRefill);
    CeilLeast(d.window, d.rate, now - d.lastRefill);
    if later > d.lastRefill {
      NonNegative(d.rate, later - d.lastRefill);
      AtLeastOne(d.rate * (later - d.lastRefill), d.window);
    }
  }

  lemma AtLeastOne(x: int, w: int)
    requires w >= 1 && x >= 0
    ensures x / w > 0 <==> x >= w
  {
    if x >= w { QuotientBound(w, 1, x); } else { assert x / w == 0; }
  }

  lemma CeilFloor(a: int, b: int)
    requires b >= 1 && a >= 1
    ensures CeilDiv(a, b) - 1 <= a / b <= CeilDiv(a, b) && CeilDiv(a, b) >= 1
  {
    var q := a / b;
    assert b * q <= a < b * q + b;
    QuotientBound(b, q, a + b - 1);
    if CeilDiv(a, b) >= q + 2 {
      Monotone(b, q + 2, CeilDiv(a, b));
    }
    QuotientBound(b, 1, a + b - 1);
  }

  lemma CeilLeast(a: int, b: int, x: int)
    requires b >= 1
    ensures b * x >= a <==> x >= CeilDiv(a, b)
  {
    var c := CeilDiv(a, b);
    assert b * c <= a + b - 1 < b * c + b;
    if x >= c {
      Monotone(b, c, x);
    } else {
      Monotone(b, x, c - 1);
    }
  }

  lemma CeilIsFloor(a: int, b: int)
    requires b >= 1
    ensures CeilDiv(a, b) == a / b + if a % b == 0 then 0 else 1
  {
    var q, r := a / b, a % b;
    assert a + b - 1 == b * q + (r + b - 1);
    if r == 0 {
      QuotientIs(b, q, b - 1);
    } else {
      assert a + b - 1 == b * (q + 1) + (r - 1);
      QuotientIs(b, q + 1, r - 1);
    }
  }

  lemma QuotientIs(b: int, q: int, r: int)
    requires 0 <= r < b
    ensures (b * q + r) / b == q
  {
    var p := (b * q + r) / b;
    assert b * p <= b * q + r < b * p + b;
    if p < q {
      Monotone(b, p + 1, q);
    } else if p > q {
      Monotone(b, q + 1, p);
    }
  }

  /** The first tick at which a bucket is full again, if nothing else comes. */
  function FullAt(b: Bucket): int
    requires b.rate >= 1
  {
    b.lastRefill + CeilDiv((b.capacity - b.tokens) * b.window, b.rate)
  }

  /** The reset time told after an admission, by the in-memory versions and by the Redis script. */
  function AdmittedReset(b: Bucket, now: int): int
    requires b.rate >= 1
  {
    now + (b.capacity - b.tokens) * b.window / b.rate
  }

  function RedisAdmittedReset(b: Bucket, now: int): int
    requires b.rate >= 1
  {
    now + CeilDiv((b.capacity - b.tokens) * b.window, b.rate)
  }

  /** After an admission the bucket is full exactly from `FullAt` on.  By the reset time of the Redis script
      it is, unless the clock is behind the last refill; by that of the in-memory versions exactly when the
      last refill lies in the past, or is now and the division leaves no rest, and else one tick later. */
  lemma FullByReset(b: Bucket, now: int, later: int)
    requires Valid(b) && b.rate >= 1 && Allow(b, now).1
    ensures var d := Allow(b, now).0; var work := (d.capacity - d.tokens) * d.window;
            && (Refill(d, later).tokens == d.capacity <==> later >= FullAt(d))
            && (FullAt(d) <= RedisAdmittedReset(d, now) <==> d.lastRefill <= now)
            && (FullAt(d) <= AdmittedReset(d, now)
                <==> d.lastRefill < now || (d.lastRefill == now && work % d.rate == 0))
            && (d.lastRefill <= now ==> FullAt(d) <= AdmittedReset(d, now) + 1)
  {
    RefillBound(b, now);
    var d := Allow(b, now).0;
    var needed := d.capacity - d.tokens;
    assert needed >= 1;
    hide Allow;
    CeilIsFloor(needed * d.window, d.rate);
    FullExactly(d, later);
  }

  lemma FullExactly(d: Bucket, later: int)
    requires Valid(d) && d.rate >= 1 && d.tokens < d.capacity
    ensures Refill(d, later).tokens == d.capacity <==> later >= FullAt(d)
  {
    var needed := d.capacity - d.tokens;
    var elapsed := later - d.lastRefill;
    NonNegative(needed, d.window);
    CeilLeast(needed * d.window, d.rate, elapsed);
    Monotone(d.window, 1, needed);
    if later >= FullAt(d) {
      QuotientBound(d.window, needed, d.rate * elapsed);
      if elapsed <= 0 {
        Monotone(d.rate, elapsed, 0);
      }
    } else if d.rate * elapsed / d.window >= needed {
      var q := d.rate * elapsed / d.window;
      Monotone(d.window, needed, q);
    }
  }
}
