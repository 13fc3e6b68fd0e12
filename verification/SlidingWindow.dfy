/**
 The sliding window of `pkg/goquota/rate_limiter_memory.go`, which prunes expired timestamps, and the
 one of `storage/memory/memory.go`, whose scan prunes nothing when every timestamp has expired.
 */
module SlidingWindow {

  datatype Window = Window(timestamps: seq<int>, window: int, limit: int)

  predicate Sorted(s: seq<int>) {
    forall i, j :: 0 <= i < j < |s| ==> s[i] <= s[j]
  }

  /** The timestamps after `cutoff`. */
  function Live(s: seq<int>, cutoff: int): seq<int> {
    if s == [] then []
    else Live(s[..|s| - 1], cutoff) + (if s[|s| - 1] > cutoff then [s[|s| - 1]] else [])
  }

  /** The index of the first timestamp after `cutoff`, or 0 when there is none. */
  function ValidStart(s: seq<int>, cutoff: int, from: nat): (k: nat)
    ensures k <= |s|
    decreases |s| - from
  {
    if from >= |s| then 0 else if s[from] > cutoff then from else ValidStart(s, cutoff, from + 1)
  }

  function Decide(w: Window, kept: seq<int>, now: int): (Window, bool) {
    if |kept| >= w.limit then (w.(timestamps := kept), false)
    else (w.(timestamps := kept + [now]), true)
  }

  /** `allowSlidingWindow`: keep what is live. */
  function Allow(w: Window, now: int): (Window, bool) {
    Decide(w, Live(w.timestamps, now - w.window), now)
  }

  /** `checkSlidingWindow` of the storage: cut at the first live timestamp. */
  function StorageAllow(w: Window, now: int): (Window, bool) {
    Decide(w, Kept(w.timestamps, now - w.window), now)
  }

  function Kept(s: seq<int>, cutoff: int): seq<int> {
    s[ValidStart(s, cutoff, 0)..]
  }

  /** The reference limiter: it remembers every admission and counts those in `(now - window, now]`. */
  function Reference(w: Window, now: int): (Window, bool) {
    if |Live(w.timestamps, now - w.window)| >= w.limit then (w, false)
    else (w.(timestamps := w.timestamps + [now]), true)
  }

  datatype Kind = Pruning | Storage | Remembering

  function Step(k: Kind, w: Window, now: int): (Window, bool) {
    match k
    case Pruning => Allow(w, now)
    case Storage => StorageAllow(w, now)
    case Remembering => Reference(w, now)
  }

  function Decisions(k: Kind, w: Window, nows: seq<int>): (r: seq<bool>)
    ensures |r| == |nows|
    decreases |nows|
  {
    if nows == [] then [] else [Step(k, w, nows[0]).1] + Decisions(k, Step(k, w, nows[0]).0, nows[1..])
  }

  function Admitted(k: Kind, w: Window, nows: seq<int>): seq<int>
    decreases |nows|
  {
    if nows == [] then []
    else (if Step(k, w, nows[0]).1 then [nows[0]] else []) + Admitted(k, Step(k, w, nows[0]).0, nows[1..])
  }

  /** Readings do not go backwards, and none lies before a recorded timestamp. */
  predicate Forward(w: Window, nows: seq<int>) {
    && Sorted(w.timestamps) && Sorted(nows) && w.limit >= 1 && w.window >= 0
    && (w.timestamps != [] && nows != [] ==> w.timestamps[|w.timestamps| - 1] <= nows[0])
  }

  // ---------- facts about Live ----------

  lemma {:induction false} LiveOfLive(s: seq<int>, c: int, d: int)
    requires c <= d
    ensures Live(Live(s, c), d) == Live(s, d)
  {
    if s != [] {
      LiveOfLive(s[..|s| - 1], c, d);
      var head := Live(s[..|s| - 1], c);
      if s[|s| - 1] > c {
        assert (head + [s[|s| - 1]])[..|head|] == head;
      } else {
        assert head + [] == head;
      }
    }
  }

  lemma LiveAppend(s: seq<int>, t: int, c: int)
    ensures Live(s + [t], c) == Live(s, c) + if t > c then [t] else []
  {
    assert (s + [t])[..|s|] == s;
  }

  /** Sorted timestamps: the live ones are a suffix. */
  lemma {:induction false} LiveIsSuffix(s: seq<int>, c: int, n: nat)
    requires Sorted(s) && n <= |s|
    requires forall i :: 0 <= i < n ==> s[i] <= c
    requires forall i :: n <= i < |s| ==> s[i] > c
    ensures Live(s, c) == s[n..]
  {
    if s != [] {
      var p := s[..|s| - 1];
      assert Sorted(p);
      if n == |s| {
        LiveIsSuffix(p, c, n - 1);
        assert p[n - 1..] == [] && s[n..] == [];
      } else {
        LiveIsSuffix(p, c, n);
        assert s[n..] == p[n..] + [s[|s| - 1]];
      }
    }
  }

  lemma {:induction false} ValidStartFinds(s: seq<int>, c: int, from: nat)
    requires from <= |s| && forall i :: 0 <= i < from ==> s[i] <= c
    ensures var k := ValidStart(s, c, from);
            if exists i :: 0 <= i < |s| && s[i] > c
            then k < |s| && s[k] > c && forall i :: 0 <= i < k ==> s[i] <= c
            else k == 0
    decreases |s| - from
  {
    if from < |s| && s[from] <= c {
      ValidStartFinds(s, c, from + 1);
    }
  }

  /** What the storage keeps: the live timestamps, or everything when none is live. */
  lemma StorageKeeps(s: seq<int>, c: int)
    requires Sorted(s)
    ensures Kept(s, c) == if Live(s, c) == [] then s else Live(s, c)
  {
    ValidStartFinds(s, c, 0);
    var k := ValidStart(s, c, 0);
    if exists i :: 0 <= i < |s| && s[i] > c {
      LiveIsSuffix(s, c, k);
      assert s[k] in Live(s, c);
    } else {
      LiveIsSuffix(s, c, |s|);
    }
  }

  // ---------- the pruning limiter is exact ----------

  ghost predicate SameFrom(x: seq<int>, y: seq<int>, cut: int) {
    forall c: int :: c >= cut ==> Live(x, c) == Live(y, c)
  }

  /** Two limiters agree on what is still live at every later time. */
  ghost predicate SameLive(a: Window, b: Window, since: int) {
    a.window == b.window && a.limit == b.limit && SameFrom(a.timestamps, b.timestamps, since - a.window)
  }

  lemma AppendSame(x: seq<int>, y: seq<int>, cut: int, t: int)
    requires SameFrom(x, y, cut)
    ensures SameFrom(x + [t], y + [t], cut)
  {
    forall c: int | c >= cut ensures Live(x + [t], c) == Live(y + [t], c) {
      LiveAppend(x, t, c);
      LiveAppend(y, t, c);
    }
  }

  lemma PrunedSame(x: seq<int>, y: seq<int>, cut: int)
    requires SameFrom(x, y, cut)
    ensures SameFrom(Live(x, cut), y, cut)
  {
    forall c: int | c >= cut ensures Live(Live(x, cut), c) == Live(y, c) {
      LiveOfLive(x, cut, c);
    }
  }

  lemma SameLater(x: seq<int>, y: seq<int>, c: int, d: int)
    requires SameFrom(x, y, c) && c <= d
    ensures SameFrom(x, y, d)
  {
  }

  lemma PruningStep(a: Window, b: Window, now: int, since: int)
    requires SameLive(a, b, since) && since <= now
    ensures Allow(a, now).1 == Reference(b, now).1
    ensures SameLive(Allow(a, now).0, Reference(b, now).0, now)
  {
    hide SameFrom, Live;
    var cut := now - a.window;
    SameLater(a.timestamps, b.timestamps, since - a.window, cut);
    PrunedSame(a.timestamps, b.timestamps, cut);
    SameNow(a.timestamps, b.timestamps, cut);
    AppendSame(Live(a.timestamps, cut), b.timestamps, cut, now);
  }

  lemma SameNow(x: seq<int>, y: seq<int>, c: int)
    requires SameFrom(x, y, c)
    ensures Live(x, c) == Live(y, c)
  {
  }

  /** Exactness: with a clock that does not go back, the pruned list decides as the full history does. */
  lemma {:induction false} PruningIsExact(a: Window, b: Window, nows: seq<int>, since: int)
    requires SameLive(a, b, since) && Sorted(nows) && (nows != [] ==> since <= nows[0])
    ensures Decisions(Pruning, a, nows) == Decisions(Remembering, b, nows)
    ensures Admitted(Pruning, a, nows) == Admitted(Remembering, b, nows)
    decreases |nows|
  {
    if nows != [] {
      PruningStep(a, b, nows[0], since);
      hide SameLive, Allow, Reference;
      PruningIsExact(Allow(a, nows[0]).0, Reference(b, nows[0]).0, nows[1..], nows[0]);
    }
  }

  // ---------- the bound on every window ----------

  /** How many timestamps lie in `(from, from + length]`. */
  function InWindow(s: seq<int>, from: int, length: int): nat {
    if s == [] then 0
    else InWindow(s[..|s| - 1], from, length) + if from < s[|s| - 1] <= from + length then 1 else 0
  }

  lemma {:induction false} InWindowAtMostLive(s: seq<int>, from: int, length: int, cutoff: int)
    requires cutoff <= from
    ensures InWindow(s, from, length) <= |Live(s, cutoff)|
  {
    if s != [] {
      InWindowAtMostLive(s[..|s| - 1], from, length, cutoff);
    }
  }

  lemma {:induction false} InWindowIsLive(s: seq<int>, cutoff: int, length: int)
    requires forall i :: 0 <= i < |s| ==> s[i] <= cutoff + length
    ensures InWindow(s, cutoff, length) == |Live(s, cutoff)|
  {
    if s != [] {
      InWindowIsLive(s[..|s| - 1], cutoff, length);
    }
  }

  /** The reference limiter admits a request exactly when fewer than `limit` of its admissions lie in the
      window that ends now, and then remembers it. */
  lemma ReferenceAdmitsIff(w: Window, now: int)
    requires forall i :: 0 <= i < |w.timestamps| ==> w.timestamps[i] <= now
    ensures Reference(w, now).1 <==> InWindow(w.timestamps, now - w.window, w.window) < w.limit
    ensures Reference(w, now).0 == if Reference(w, now).1 then w.(timestamps := w.timestamps + [now]) else w
  {
    InWindowIsLive(w.timestamps, now - w.window, w.window);
  }

  ghost predicate Bounded(history: seq<int>, window: int, limit: int) {
    forall from: int :: InWindow(history, from, window) <= limit
  }

  lemma AdmitKeepsBound(history: seq<int>, now: int, window: int, limit: int)
    requires Bounded(history, window, limit) && |Live(history, now - window)| < limit
    ensures Bounded(history + [now], window, limit)
  {
    assert (history + [now])[..|history|] == history;
    forall from: int ensures InWindow(history + [now], from, window) <= limit {
      assert InWindow(history, from, window) <= limit;
      if from < now <= from + window {
        InWindowAtMostLive(history, from, window, now - window);
      }
    }
  }

  /** Every window of the given length holds at most `limit` admissions of the reference limiter,
      and so, by `PruningIsExact`, of the pruning one. */
  lemma {:induction false} ReferenceBound(w: Window, nows: seq<int>)
    requires Bounded(w.timestamps, w.window, w.limit)
    ensures Bounded(w.timestamps + Admitted(Remembering, w, nows), w.window, w.limit)
    decreases |nows|
  {
    if nows == [] {
      assert w.timestamps + [] == w.timestamps;
    } else {
      var (v, ok) := Reference(w, nows[0]);
      if ok {
        AdmitKeepsBound(w.timestamps, nows[0], w.window, w.limit);
      }
      hide Bounded;
      ReferenceBound(v, nows[1..]);
      var rest := Admitted(Remembering, v, nows[1..]);
      assert w.timestamps + ((if ok then [nows[0]] else []) + rest) == v.timestamps + rest;
    }
  }

  // ---------- the storage's limiter ----------

  /** The branch that fails: the list is full, and nothing in it is live. */
  predicate StaleFull(w: Window, now: int) {
    |w.timestamps| >= w.limit && Live(w.timestamps, now - w.window) == []
  }

  predicate MeetsStaleFull(w: Window, nows: seq<int>)
    decreases |nows|
  {
    nows != [] && (StaleFull(w, nows[0]) || MeetsStaleFull(StorageAllow(w, nows[0]).0, nows[1..]))
  }

  lemma StorageStep(a: Window, b: Window, now: int, since: int)
    requires SameLive(a, b, since) && since <= now && Sorted(a.timestamps) && a.limit >= 1
    ensures var (c, ok) := StorageAllow(a, now); var (d, yes) := Reference(b, now);
            && (ok == yes <==> !StaleFull(a, now))
            && (StaleFull(a, now) ==> !ok && yes && c == a)
            && (ok == yes ==> SameLive(c, d, now))
  {
    hide SameFrom, Live, Kept, Sorted;
    var cut := now - a.window;
    SameLater(a.timestamps, b.timestamps, since - a.window, cut);
    KeptSame(a.timestamps, b.timestamps, cut);
    AppendSame(Kept(a.timestamps, cut), b.timestamps, cut, now);
  }

  lemma KeptSame(s: seq<int>, y: seq<int>, cut: int)
    requires Sorted(s) && SameFrom(s, y, cut)
    ensures Kept(s, cut) == if Live(s, cut) == [] then s else Live(s, cut)
    ensures SameFrom(Kept(s, cut), y, cut) && Live(s, cut) == Live(y, cut)
  {
    StorageKeeps(s, cut);
    PrunedSame(s, y, cut);
  }

  lemma StorageForward(a: Window, nows: seq<int>)
    requires nows != [] && Forward(a, nows)
    ensures Forward(StorageAllow(a, nows[0]).0, nows[1..])
  {
    var now := nows[0];
    var kept := Kept(a.timestamps, now - a.window);
    assert forall i :: 0 <= i < |a.timestamps| ==> a.timestamps[i] <= now;
    assert forall i :: 0 <= i < |nows| ==> now <= nows[i];
    hide ValidStart;
    assert Sorted(kept) && forall i :: 0 <= i < |kept| ==> kept[i] <= now;
    assert Sorted(kept + [now]);
    assert Sorted(nows[1..]);
  }

  /** Once the storage's list is full and entirely expired, it denies every later request. */
  lemma {:induction false} LockedOut(a: Window, nows: seq<int>)
    requires Forward(a, nows) && nows != [] && StaleFull(a, nows[0])
    ensures Admitted(Storage, a, nows) == [] && forall k :: 0 <= k < |nows| ==> !Decisions(Storage, a, nows)[k]
    decreases |nows|
  {
    StorageStep(a, a, nows[0], nows[0]);
    StorageForward(a, nows);
    hide StorageAllow, Reference, SameLive;
    var rest := nows[1..];
    if rest != [] {
      StaleLater(a, nows[0], rest[0]);
      hide StaleFull, Forward;
      LockedOut(a, rest);
    }
  }

  lemma StaleLater(a: Window, now: int, later: int)
    requires now <= later && StaleFull(a, now)
    ensures StaleFull(a, later)
  {
    LiveOfLive(a.timestamps, now - a.window, later - a.window);
  }

  /** The storage's limiter decides as the exact one on a run with a forward clock if and only if no
      call of the run finds the list full and entirely expired. */
  lemma {:induction false} StorageExactIff(a: Window, b: Window, nows: seq<int>, since: int)
    requires SameLive(a, b, since) && (nows != [] ==> since <= nows[0]) && Forward(a, nows)
    ensures Decisions(Storage, a, nows) == Decisions(Remembering, b, nows) <==> !MeetsStaleFull(a, nows)
    decreases |nows|
  {
    if nows != [] {
      StorageStep(a, b, nows[0], since);
      StorageForward(a, nows);
      var (c, ok) := StorageAllow(a, nows[0]);
      var (d, yes) := Reference(b, nows[0]);
      var da, db := Decisions(Storage, a, nows), Decisions(Remembering, b, nows);
      assert da[0] == ok && db[0] == yes;
      hide SameLive, StorageAllow, Reference, StaleFull;
      if ok == yes {
        StorageExactIff(c, d, nows[1..], nows[0]);
        assert da[1..] == Decisions(Storage, c, nows[1..]) && db[1..] == Decisions(Remembering, d, nows[1..]);
        assert da == [ok] + da[1..] && db == [yes] + db[1..];
      }
    }
  }

  /** Even so, no window ever holds more than `limit` of the storage's admissions: it keeps at least
      what is live of its own history. */
  lemma {:induction false} StorageBound(a: Window, history: seq<int>, nows: seq<int>, since: int)
    requires SameLive(a, a.(timestamps := history), since) && (nows != [] ==> since <= nows[0]) && Forward(a, nows)
    requires Bounded(history, a.window, a.limit)
    ensures Bounded(history + Admitted(Storage, a, nows), a.window, a.limit)
    decreases |nows|
  {
    hide *;
    if nows == [] {
      NoneAdmitted(a);
      assert history + [] == history;
    } else {
      StorageBoundStep(a, history, nows, since);
      AdmittedFirst(a, nows);
      var (c, ok) := StorageAllow(a, nows[0]);
      var head := if ok then [nows[0]] else [];
      StorageBound(c, history + head, nows[1..], nows[0]);
      var rest := Admitted(Storage, c, nows[1..]);
      assert history + (head + rest) == (history + head) + rest;
    }
  }

  lemma NoneAdmitted(a: Window)
    ensures Admitted(Storage, a, []) == []
  {
  }

  lemma AdmittedFirst(a: Window, nows: seq<int>)
    requires nows != []
    ensures var (c, ok) := StorageAllow(a, nows[0]);
            Admitted(Storage, a, nows) == (if ok then [nows[0]] else []) + Admitted(Storage, c, nows[1..])
  {
    hide StorageAllow;
  }

  lemma StorageBoundStep(a: Window, history: seq<int>, nows: seq<int>, since: int)
    requires nows != [] && since <= nows[0] && Forward(a, nows)
    requires SameLive(a, a.(timestamps := history), since) && Bounded(history, a.window, a.limit)
    ensures var (c, ok) := StorageAllow(a, nows[0]); var more := history + if ok then [nows[0]] else [];
            && c.window == a.window && c.limit == a.limit && Forward(c, nows[1..])
            && SameLive(c, c.(timestamps := more), nows[0]) && Bounded(more, c.window, c.limit)
            && (nows[1..] != [] ==> nows[0] <= nows[1..][0])
  {
    hide *;
    var now := nows[0];
    StorageForward(a, nows);
    NextReading(a, nows);
    StorageAdmitsBelow(a, history, now, since);
    StorageTracks(a, history, now, since);
    var (c, ok) := StorageAllow(a, now);
    if ok {
      AdmitKeepsBound(history, now, a.window, a.limit);
    } else {
      assert history + [] == history;
    }
  }

  lemma NextReading(a: Window, nows: seq<int>)
    requires Forward(a, nows) && nows != []
    ensures Sorted(a.timestamps) && a.limit >= 1
    ensures nows[1..] != [] ==> nows[0] <= nows[1..][0]
  {
  }

  lemma StorageAdmitsBelow(a: Window, history: seq<int>, now: int, since: int)
    requires SameLive(a, a.(timestamps := history), since) && since <= now && Sorted(a.timestamps) && a.limit >= 1
    ensures var (c, ok) := StorageAllow(a, now);
            c.window == a.window && c.limit == a.limit && (ok ==> |Live(history, now - a.window)| < a.limit)
  {
    hide SameFrom, Live, Kept, Sorted;
    SameLater(a.timestamps, history, since - a.window, now - a.window);
    KeptSame(a.timestamps, history, now - a.window);
  }

  lemma StorageTracks(a: Window, history: seq<int>, now: int, since: int)
    requires SameLive(a, a.(timestamps := history), since) && since <= now && Sorted(a.timestamps)
    ensures var (c, ok) := StorageAllow(a, now);
            SameLive(c, c.(timestamps := if ok then history + [now] else history), now)
  {
    hide SameFrom, Live, Kept, Sorted;
    var cut := now - a.window;
    SameLater(a.timestamps, history, since - a.window, cut);
    KeptSame(a.timestamps, history, cut);
    AppendSame(Kept(a.timestamps, cut), history, cut, now);
  }
}
