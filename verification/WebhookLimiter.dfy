/**
 The fixed-window limiter in front of the webhooks (`pkg/billing/internal/rate_limiter.go`): one bucket
 per IP address, with expired buckets removed now and then.
 */
module WebhookLimiter {

  datatype Bucket = Bucket(count: int, resetAt: int)

  datatype State = State(requests: map<string, Bucket>, requestCount: int)

  datatype Settings = Settings(limit: int, window: int, cleanupEvery: int, cleanupAtSize: int)

  predicate ValidSettings(c: Settings) {
    c.window >= 0 && c.cleanupEvery >= 1
  }

  function WithoutExpired(m: map<string, Bucket>, now: int): map<string, Bucket> {
    map ip | ip in m && now <= m[ip].resetAt :: m[ip]
  }

  /** The decision on its own, with no cleanup: the reference. */
  function Admit(m: map<string, Bucket>, c: Settings, ip: string, now: int): (map<string, Bucket>, bool) {
    if ip !in m || now > m[ip].resetAt then (m[ip := Bucket(1, now + c.window)], true)
    else if m[ip].count >= c.limit then (m, false)
    else (m[ip := m[ip].(count := m[ip].count + 1)], true)
  }

  /** One request: the deterministic cleanup, then the decision. */
  function AllowStep(s: State, c: Settings, ip: string, now: int): (State, bool)
    requires ValidSettings(c)
  {
    var n := s.requestCount + 1;
    var cleanup := n % c.cleanupEvery == 0 || |s.requests| > c.cleanupAtSize;
    var m := if cleanup then WithoutExpired(s.requests, now) else s.requests;
    var (m', ok) := Admit(m, c, ip, now);
    (State(m', if cleanup && n >= c.cleanupEvery * 10 then 0 else n), ok)
  }

  datatype Event = Request(ip: string, now: int) | Cleanup(now: int)

  predicate Ordered(events: seq<Event>, since: int)
    decreases |events|
  {
    events == [] || (since <= events[0].now && Ordered(events[1..], events[0].now))
  }

  function Decisions(s: State, c: Settings, events: seq<Event>): seq<bool>
    requires ValidSettings(c)
    decreases |events|
  {
    if events == [] then []
    else
      match events[0]
      case Request(ip, now) => [AllowStep(s, c, ip, now).1] + Decisions(AllowStep(s, c, ip, now).0, c, events[1..])
      case Cleanup(now) => Decisions(s.(requests := WithoutExpired(s.requests, now)), c, events[1..])
  }

  function ReferenceDecisions(m: map<string, Bucket>, c: Settings, events: seq<Event>): seq<bool>
    decreases |events|
  {
    if events == [] then []
    else
      match events[0]
      case Request(ip, now) => [Admit(m, c, ip, now).1] + ReferenceDecisions(Admit(m, c, ip, now).0, c, events[1..])
      case Cleanup(now) => ReferenceDecisions(m, c, events[1..])
  }

  /** The cleaned map lacks only buckets that have expired. */
  ghost predicate Cleaned(m: map<string, Bucket>, full: map<string, Bucket>, now: int) {
    && (forall ip :: ip in m ==> ip in full && m[ip] == full[ip])
    && (forall ip :: ip in full && ip !in m ==> full[ip].resetAt < now)
  }

  lemma CleanupKeeps(m: map<string, Bucket>, full: map<string, Bucket>, since: int, now: int)
    requires Cleaned(m, full, since) && since <= now
    ensures Cleaned(m, full, now) && Cleaned(WithoutExpired(m, now), full, now)
  {
  }

  lemma AdmitAgrees(m: map<string, Bucket>, full: map<string, Bucket>, c: Settings, ip: string, now: int)
    requires Cleaned(m, full, now)
    ensures Admit(m, c, ip, now).1 == Admit(full, c, ip, now).1
    ensures Cleaned(Admit(m, c, ip, now).0, Admit(full, c, ip, now).0, now)
  {
  }

  /** Whenever cleanups happen, the limiter decides as one that never cleans up. */
  lemma {:induction false} CleanupIsInvisible(s: State, full: map<string, Bucket>, c: Settings, events: seq<Event>,
                                              since: int)
    requires ValidSettings(c) && Cleaned(s.requests, full, since) && Ordered(events, since)
    ensures Decisions(s, c, events) == ReferenceDecisions(full, c, events)
    decreases |events|
  {
    if events != [] {
      var now := events[0].now;
      CleanupKeeps(s.requests, full, since, now);
      match events[0]
      case Request(ip, _) =>
        AdmitAgrees(s.requests, full, c, ip, now);
        AdmitAgrees(WithoutExpired(s.requests, now), full, c, ip, now);
        hide Cleaned, Admit, WithoutExpired;
        CleanupIsInvisible(AllowStep(s, c, ip, now).0, Admit(full, c, ip, now).0, c, events[1..], now);
      case Cleanup(_) =>
        hide Cleaned, WithoutExpired;
        CleanupIsInvisible(s.(requests := WithoutExpired(s.requests, now)), full, c, events[1..], now);
    }
  }

  /** Expired buckets do not stay for ever: after every `cleanupEvery`-th request since the counter was last reset,
      and whenever there are more than `cleanupAtSize` buckets, none is left but perhaps the caller's new one. */
  lemma CleanupHappens(s: State, c: Settings, ip: string, now: int)
    requires ValidSettings(c) && 0 <= s.requestCount
    ensures var t := AllowStep(s, c, ip, now).0; var n := s.requestCount + 1;
            && (n % c.cleanupEvery == 0 || |s.requests| > c.cleanupAtSize ==>
                  forall k :: k in t.requests && k != ip ==> now <= t.requests[k].resetAt)
            && (t.requestCount == n || (t.requestCount == 0 && n >= 10 * c.cleanupEvery))
            && t.requests.Keys <= s.requests.Keys + {ip}
  {
  }

  // ---------- the bound ----------

  function CountIn(times: seq<int>, from: int, to: int): nat {
    if times == [] then 0
    else CountIn(times[..|times| - 1], from, to) + if from <= times[|times| - 1] <= to then 1 else 0
  }

  lemma CountAppend(times: seq<int>, t: int, from: int, to: int)
    ensures CountIn(times + [t], from, to) == CountIn(times, from, to) + if from <= t <= to then 1 else 0
  {
    assert (times + [t])[..|times|] == times;
  }

  lemma {:induction false} CountSplit(times: seq<int>, from: int, mid: int, to: int)
    requires from <= mid <= to + 1
    ensures CountIn(times, from, to) == CountIn(times, from, mid - 1) + CountIn(times, mid, to)
  {
    if times != [] {
      CountSplit(times[..|times| - 1], from, mid, to);
    }
  }

  lemma {:induction false} CountWider(times: seq<int>, from: int, to: int, from': int, to': int)
    requires from' <= from && to <= to'
    ensures CountIn(times, from, to) <= CountIn(times, from', to')
  {
    if times != [] {
      CountWider(times[..|times| - 1], from, to, from', to');
    }
  }

  function PerBucket(c: Settings): int {
    if c.limit < 1 then 1 else c.limit
  }

  /** The admissions of one IP address, and its bucket. */
  function Admitted(m: map<string, Bucket>, c: Settings, events: seq<Event>, ip: string): seq<int>
    decreases |events|
  {
    if events == [] then []
    else
      match events[0]
      case Request(i, now) =>
        (if i == ip && Admit(m, c, i, now).1 then [now] else []) + Admitted(Admit(m, c, i, now).0, c, events[1..], ip)
      case Cleanup(_) => Admitted(m, c, events[1..], ip)
  }

  /** The number of admissions in the interval of one window's length that starts at `from`. */
  function Span(times: seq<int>, c: Settings, from: int): nat {
    CountIn(times, from, from + c.window)
  }

  ghost predicate SpansFit(times: seq<int>, c: Settings) {
    forall from: int :: Span(times, c, from) <= 2 * PerBucket(c)
  }

  /** The current bucket holds the admissions since its start, at most its limit, as does the window
      before its start. */
  ghost predicate BucketFits(times: seq<int>, b: Bucket, c: Settings, now: int) {
    var start := b.resetAt - c.window;
    && start <= now
    && CountIn(times, start, now) == b.count <= PerBucket(c)
    && CountIn(times, start - c.window, start - 1) <= PerBucket(c)
    && (forall i :: 0 <= i < |times| ==> times[i] <= b.resetAt)
  }

  ghost predicate Spread(times: seq<int>, m: map<string, Bucket>, c: Settings, ip: string, now: int) {
    && (forall i :: 0 <= i < |times| ==> times[i] <= now)
    && SpansFit(times, c)
    && (if ip !in m then times == [] else BucketFits(times, m[ip], c, now))
  }

  lemma SpreadStep(times: seq<int>, m: map<string, Bucket>, c: Settings, ip: string, now: int)
    requires ValidSettings(c) && Spread(times, m, c, ip, now)
    ensures var (m', ok) := Admit(m, c, ip, now);
            Spread(if ok then times + [now] else times, m', c, ip, now)
  {
    var (m', ok) := Admit(m, c, ip, now);
    hide SpansFit, CountIn;
    if ok {
      BucketGrows(times, m, c, ip, now);
      hide BucketFits;
      SpansStillFit(times, m'[ip], c, now);
    }
  }

  lemma BucketGrows(times: seq<int>, m: map<string, Bucket>, c: Settings, ip: string, now: int)
    requires ValidSettings(c) && Spread(times, m, c, ip, now) && Admit(m, c, ip, now).1
    ensures BucketFits(times + [now], Admit(m, c, ip, now).0[ip], c, now)
  {
    hide SpansFit, CountIn;
    var start := Admit(m, c, ip, now).0[ip].resetAt - c.window;
    CountAppend(times, now, start, now);
    CountAppend(times, now, start - c.window, start - 1);
    if ip !in m {
      CountEmpty();
    } else if now > m[ip].resetAt {
      var previous := m[ip].resetAt - c.window;
      NoneAfter(times, now, now, m[ip].resetAt);
      CountWider(times, now - c.window, now - 1, previous, now);
    }
  }

  lemma SpansStillFit(times: seq<int>, b: Bucket, c: Settings, now: int)
    requires ValidSettings(c) && SpansFit(times, c) && BucketFits(times + [now], b, c, now)
    requires forall i :: 0 <= i < |times| ==> times[i] <= now
    ensures SpansFit(times + [now], c)
  {
    var all := times + [now];
    hide CountIn;
    assert all[|times|] == now <= b.resetAt;
    forall from: int ensures Span(all, c, from) <= 2 * PerBucket(c) {
      CountAppend(times, now, from, from + c.window);
      assert Span(times, c, from) <= 2 * PerBucket(c);
      if from <= now <= from + c.window {
        SpanFits(all, b.resetAt - c.window, now, from, c);
      }
    }
  }

  lemma CountEmpty()
    ensures forall from, to :: CountIn([], from, to) == 0
  {
  }

  lemma {:induction false} NoneAfter(times: seq<int>, from: int, to: int, last: int)
    requires last < from && forall i :: 0 <= i < |times| ==> times[i] <= last
    ensures CountIn(times, from, to) == 0
  {
    if times != [] {
      NoneAfter(times[..|times| - 1], from, to, last);
    }
  }

  lemma SpreadLater(times: seq<int>, m: map<string, Bucket>, c: Settings, ip: string, since: int, now: int)
    requires Spread(times, m, c, ip, since) && since <= now
    ensures Spread(times, m, c, ip, now)
  {
    hide SpansFit, CountIn;
    if ip in m {
      var start := m[ip].resetAt - c.window;
      CountSplit(times, start, since + 1, now);
      NoneAfter(times, since + 1, now, since);
    }
  }

  /** A span that reaches the newest admission: the current bucket's share and the window before. */
  lemma SpanFits(all: seq<int>, start: int, now: int, from: int, c: Settings)
    requires c.window >= 0 && start <= now <= start + c.window && from <= now <= from + c.window
    requires forall i :: 0 <= i < |all| ==> all[i] <= now
    requires CountIn(all, start, now) <= PerBucket(c) && CountIn(all, start - c.window, start - 1) <= PerBucket(c)
    ensures CountIn(all, from, from + c.window) <= 2 * PerBucket(c)
  {
    CountSplit(all, from, now + 1, from + c.window);
    NoneAfter(all, now + 1, from + c.window, now);
    if from <= start {
      CountSplit(all, from, start, now);
      CountWider(all, from, start - 1, start - c.window, start - 1);
    } else {
      CountWider(all, from, now, start, now);
    }
  }

  /** Any interval of one window's length admits at most twice the limit per IP address (a limit below 1
      still lets the first request of a bucket through). */
  lemma {:induction false} TwiceTheLimit(times: seq<int>, m: map<string, Bucket>, c: Settings, events: seq<Event>,
                                         ip: string, since: int)
    requires ValidSettings(c) && Spread(times, m, c, ip, since) && Ordered(events, since)
    ensures SpansFit(times + Admitted(m, c, events, ip), c)
    decreases |events|
  {
    hide SpansFit, Spread, Admit;
    if events == [] {
      assert times + [] == times;
      SpreadFits(times, m, c, ip, since);
    } else {
      var now := events[0].now;
      SpreadLater(times, m, c, ip, since, now);
      match events[0]
      case Cleanup(_) =>
        TwiceTheLimit(times, m, c, events[1..], ip, now);
      case Request(i, _) =>
        var (m', ok) := Admit(m, c, i, now);
        var head := if i == ip && ok then [now] else [];
        if i == ip {
          SpreadStep(times, m, c, ip, now);
        } else {
          OtherAddress(times, m, c, ip, i, now);
        }
        assert times + [] == times;
        TwiceTheLimit(times + head, m', c, events[1..], ip, now);
        var rest := Admitted(m', c, events[1..], ip);
        assert times + (head + rest) == (times + head) + rest;
    }
  }

  /** Nobody is denied early: a request is denied exactly when its address has a bucket that has not expired, and
      the bucket's window already holds the limit of admissions. */
  lemma DeniedIff(times: seq<int>, m: map<string, Bucket>, c: Settings, ip: string, now: int)
    requires ValidSettings(c) && Spread(times, m, c, ip, now) && c.limit >= 1
    ensures !Admit(m, c, ip, now).1 <==>
              ip in m && now <= m[ip].resetAt && CountIn(times, m[ip].resetAt - c.window, now) == c.limit
    ensures !Admit(m, c, ip, now).1 ==> Admit(m, c, ip, now).0 == m
    ensures ip !in m || now > m[ip].resetAt ==> Admit(m, c, ip, now) == (m[ip := Bucket(1, now + c.window)], true)
  {
  }

  /** Addresses do not share a bucket. */
  lemma AddressesApart(m: map<string, Bucket>, c: Settings, ip: string, other: string, now: int)
    requires ip != other
    ensures Admit(m, c, ip, now).0 - {ip} == m - {ip}
    ensures Admit(Admit(m, c, other, now).0, c, ip, now).1 == Admit(m, c, ip, now).1
  {
  }

  lemma SpreadFits(times: seq<int>, m: map<string, Bucket>, c: Settings, ip: string, now: int)
    requires Spread(times, m, c, ip, now)
    ensures SpansFit(times, c)
  {
  }

  lemma OtherAddress(times: seq<int>, m: map<string, Bucket>, c: Settings, ip: string, i: string, now: int)
    requires Spread(times, m, c, ip, now) && i != ip
    ensures Spread(times, Admit(m, c, i, now).0, c, ip, now)
  {
    hide SpansFit, BucketFits;
  }

  // ---------- the object ----------

  class RateLimiter {
    var requests: map<string, Bucket>
    var requestCount: int
    const limit: int
    const window: int
    const cleanupEvery: int
    const cleanupAtSize: int

    ghost function Config(): Settings {
      Settings(limit, window, cleanupEvery, cleanupAtSize)
    }

    constructor (limit: int, window: int)
      ensures Config() == Settings(limit, window, 100, 200)
      ensures requests == map[] && requestCount == 0
    {
      requests, requestCount := map[], 0;
      this.limit, this.window := limit, window;
      cleanupEvery, cleanupAtSize := 100, 200;
    }

    method CleanupExpired(now: int)
      modifies this`requests
      ensures requests == WithoutExpired(old(requests), now)
    {
      var ips := requests.Keys;
      while ips != {}
        invariant ips <= requests.Keys <= old(requests).Keys
        invariant forall ip :: ip in requests ==> requests[ip] == old(requests)[ip]
        invariant forall ip :: ip in old(requests) && ip !in ips ==>
                    (ip in requests <==> now <= old(requests)[ip].resetAt)
        decreases |ips|
      {
        var ip :| ip in ips;
        ips := ips - {ip};
        if now > requests[ip].resetAt {
          requests := map k | k in requests && k != ip :: requests[k];
        }
      }
    }

    method Allow(ip: string, now: int) returns (ok: bool)
      requires ValidSettings(Config())
      modifies this
      ensures (State(requests, requestCount), ok)
              == AllowStep(old(State(requests, requestCount)), Config(), ip, now)
    {
      requestCount := requestCount + 1;
      var shouldCleanup := requestCount % cleanupEvery == 0 || |requests| > cleanupAtSize;
      if shouldCleanup {
        CleanupExpired(now);
        if requestCount >= cleanupEvery * 10 {
          requestCount := 0;
        }
      }
      if ip !in requests || now > requests[ip].resetAt {
        requests := requests[ip := Bucket(1, now + window)];
        return true;
      }
      if requests[ip].count >= limit {
        return false;
      }
      requests := requests[ip := requests[ip].(count := requests[ip].count + 1)];
      return true;
    }
  }
}
