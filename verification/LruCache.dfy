/**
 The LRU cache with expiry (`pkg/goquota/cache.go`): one map for entitlements, one for usage, one
 sequence counter for both.  Eviction walks a map in no particular order.  Statistics are left out.
 */
module LruCache {
  import opened Ledger

  datatype Entry<V> = Entry(value: V, expiration: int, accessTime: int, sequence: int)

  predicate Older<V>(a: Entry<V>, b: Entry<V>) {
    a.accessTime < b.accessTime || (a.accessTime == b.accessTime && a.sequence < b.sequence)
  }

  /** No two entries have the same sequence number, and all are below the counter. */
  ghost predicate Numbered<V>(m: map<string, Entry<V>>, counter: int) {
    && (forall k :: k in m ==> m[k].sequence < counter)
    && (forall j, k :: j in m && k in m && j != k ==> m[j].sequence != m[k].sequence)
  }

  predicate IsVictim<V>(m: map<string, Entry<V>>, v: string) {
    v in m && forall k :: k in m && k != v ==> Older(m[v], m[k])
  }

  lemma {:induction false} VictimExists<V>(m: map<string, Entry<V>>, counter: int) returns (v: string)
    requires m != map[] && Numbered(m, counter)
    ensures IsVictim(m, v)
    decreases |m|
  {
    var k :| k in m;
    var rest := m - {k};
    if rest == map[] {
      v := k;
      assert forall j :: j in m && j != k ==> j in rest;
    } else {
      assert |rest.Keys| == |m.Keys - {k}|;
      var u := VictimExists(rest, counter);
      v := if Older(m[u], m[k]) then u else k;
      assert forall j :: j in m && j != k ==> j in rest;
    }
  }

  /** The entry evicted does not depend on the order in which the map is walked. */
  lemma VictimUnique<V>(m: map<string, Entry<V>>, v: string, w: string)
    requires IsVictim(m, v) && IsVictim(m, w)
    ensures v == w
  {
  }

  function GetFrom<V>(m: map<string, Entry<V>>, key: string, checked: int, touched: int)
    : (map<string, Entry<V>>, Option<V>)
  {
    if key !in m || checked > m[key].expiration then (m, None)
    else (m[key := m[key].(accessTime := touched)], Some(m[key].value))
  }

  /** A look-up hits exactly when there is an entry that has not expired, and changes nothing but the time of
      its last use; an entry just stored answers for its time to live, the last instant included. */
  lemma HitIff<V>(m: map<string, Entry<V>>, key: string, checked: int, touched: int)
    ensures var (n, v) := GetFrom(m, key, checked, touched);
            && (v.Some? <==> key in m && m[key].expiration >= checked)
            && (v.Some? ==> v.value == m[key].value && n[key] == m[key].(accessTime := touched))
            && n.Keys == m.Keys && n - {key} == m - {key}
  {
  }

  lemma LivesForTtl<V>(m: map<string, Entry<V>>, max: int, key: string, value: V, now: int, ttl: int, counter: int,
                       n: map<string, Entry<V>>, checked: int, touched: int)
    requires SetsTo(m, max, key, Entry(value, now + ttl, now, counter), n)
    ensures GetFrom(n, key, checked, touched).1 == if checked - now <= ttl then Some(value) else None
  {
  }

  function Evicted<V>(m: map<string, Entry<V>>, v: string): map<string, Entry<V>> {
    if v == "" then m else m - {v}
  }

  /** An insert, with the eviction before it.  An empty key is never evicted. */
  ghost predicate SetsTo<V>(m: map<string, Entry<V>>, max: int, key: string, e: Entry<V>, n: map<string, Entry<V>>) {
    if |m| >= max && key !in m && m != map[]
    then exists v :: IsVictim(m, v) && n == Evicted(m, v)[key := e]
    else n == m[key := e]
  }

  /** The size after an insert: a new key evicts one entry from a full cache, unless the victim has the
      empty key. */
  lemma SizeAfterSet<V>(m: map<string, Entry<V>>, max: int, key: string, e: Entry<V>, n: map<string, Entry<V>>)
    requires SetsTo(m, max, key, e, n)
    ensures |n| == |m| + if key in m || (|m| >= max && m != map[] && !IsVictim(m, "")) then 0 else 1
  {
    if |m| >= max && key !in m && m != map[] {
      var v :| IsVictim(m, v) && n == Evicted(m, v)[key := e];
      Grown(Evicted(m, v), key, e);
      assert v != "" ==> (m - {v}).Keys == m.Keys - {v};
      if IsVictim(m, "") {
        VictimUnique(m, v, "");
      }
    } else {
      Grown(m, key, e);
    }
  }

  /** What every cache satisfies that is never given the empty key. */
  predicate Bounded<V>(m: map<string, Entry<V>>, max: int) {
    "" !in m && |m| <= max
  }

  lemma SetKeepsBound<V>(m: map<string, Entry<V>>, max: int, key: string, e: Entry<V>, n: map<string, Entry<V>>)
    requires SetsTo(m, max, key, e, n) && 1 <= max && Bounded(m, max) && key != ""
    ensures Bounded(n, max)
  {
    SizeAfterSet(m, max, key, e, n);
  }

  lemma DropKeepsBound<V>(m: map<string, Entry<V>>, drop: set<string>)
    ensures |m - drop| <= |m|
  {
    assert (m - drop).Keys == m.Keys - drop;
    assert |m.Keys - drop| <= |m.Keys|;
  }

  lemma Grown<V>(m: map<string, Entry<V>>, key: string, e: Entry<V>)
    ensures |m[key := e]| == |m| + if key in m then 0 else 1
  {
    assert m[key := e].Keys == m.Keys + {key};
  }

  // ---------- the reference: a list, least recently used first ----------

  datatype Item<V> = Item(key: string, value: V, expiration: int)

  function Find<V>(l: seq<Item<V>>, key: string): (i: nat)
    ensures i <= |l| && (i < |l| ==> l[i].key == key) && forall j :: 0 <= j < i ==> l[j].key != key
  {
    if l == [] then 0 else if l[0].key == key then 0 else 1 + Find(l[1..], key)
  }

  function Removed<V>(l: seq<Item<V>>, key: string): seq<Item<V>> {
    var i := Find(l, key);
    if i == |l| then l else l[..i] + l[i + 1..]
  }

  function ListGet<V>(l: seq<Item<V>>, key: string, now: int): (seq<Item<V>>, Option<V>) {
    var i := Find(l, key);
    if i == |l| || now > l[i].expiration then (l, None)
    else (Removed(l, key) + [l[i]], Some(l[i].value))
  }

  function ListSet<V>(l: seq<Item<V>>, max: int, item: Item<V>): seq<Item<V>> {
    if Find(l, item.key) == |l| && |l| >= max && l != [] then l[1..] + [item]
    else Removed(l, item.key) + [item]
  }

  ghost predicate Matches<V>(l: seq<Item<V>>, m: map<string, Entry<V>>) {
    forall i :: 0 <= i < |l| ==> l[i].key in m && m[l[i].key].value == l[i].value
                                 && m[l[i].key].expiration == l[i].expiration
  }

  predicate Covers<V>(l: seq<Item<V>>, m: map<string, Entry<V>>) {
    forall k :: k in m ==> exists i :: 0 <= i < |l| && l[i].key == k
  }

  predicate Ascending<V>(l: seq<Item<V>>, m: map<string, Entry<V>>)
    requires forall i :: 0 <= i < |l| ==> l[i].key in m
  {
    forall i, j :: 0 <= i < j < |l| ==> l[i].key != l[j].key && m[l[i].key].accessTime < m[l[j].key].accessTime
  }

  /** The list is the map in order of last use. */
  ghost predicate Orders<V>(l: seq<Item<V>>, m: map<string, Entry<V>>) {
    Matches(l, m) && Covers(l, m) && Ascending(l, m)
  }

  ghost predicate UsedBefore<V>(m: map<string, Entry<V>>, now: int) {
    forall k :: k in m ==> m[k].accessTime <= now
  }

  lemma {:induction false} SameSize<V>(l: seq<Item<V>>, m: map<string, Entry<V>>)
    requires Orders(l, m)
    ensures |l| == |m|
  {
    var keys := seq(|l|, i requires 0 <= i < |l| => l[i].key);
    DistinctLength(keys);
    assert (set k | k in keys) == m.Keys by {
      forall k | k in m ensures k in keys {
        var i :| 0 <= i < |l| && l[i].key == k;
        assert keys[i] == k;
      }
    }
  }

  lemma {:induction false} DistinctLength(s: seq<string>)
    requires forall i, j :: 0 <= i < j < |s| ==> s[i] != s[j]
    ensures |set k | k in s| == |s|
  {
    if s != [] {
      DistinctLength(s[1..]);
      assert (set k | k in s) == {s[0]} + set k | k in s[1..];
    }
  }

  lemma RemovedOrders<V>(l: seq<Item<V>>, m: map<string, Entry<V>>, key: string)
    requires Orders(l, m)
    ensures Orders(Removed(l, key), m - {key})
    ensures key in m <==> Find(l, key) < |l|
    ensures key in m ==> var i := Find(l, key); m[key].value == l[i].value && m[key].expiration == l[i].expiration
  {
    hide Orders, Removed;
    if Find(l, key) < |l| {
      RemovedFound(l, m, key);
    } else {
      RemovedAbsent(l, m, key);
    }
  }

  lemma RemovedFound<V>(l: seq<Item<V>>, m: map<string, Entry<V>>, key: string)
    requires Orders(l, m) && Find(l, key) < |l|
    ensures Orders(Removed(l, key), m - {key}) && key in m
    ensures var i := Find(l, key); m[key].value == l[i].value && m[key].expiration == l[i].expiration
  {
    hide Ascending, Covers;
    var i := Find(l, key);
    var r := Removed(l, key);
    RemovedAt(l, i, r);
    RemovedMatches(l, m, i, r);
    RemovedCovers(l, m, i, r);
  }

  lemma RemovedAbsent<V>(l: seq<Item<V>>, m: map<string, Entry<V>>, key: string)
    requires Orders(l, m) && Find(l, key) == |l|
    ensures Orders(Removed(l, key), m - {key}) && key !in m
  {
    assert key !in m;
    assert m - {key} == m;
    hide Matches, Covers, Ascending;
  }

  lemma RemovedMatches<V>(l: seq<Item<V>>, m: map<string, Entry<V>>, i: nat, r: seq<Item<V>>)
    requires i < |l| && |r| == |l| - 1 && forall j :: 0 <= j < |r| ==> r[j] == l[if j < i then j else j + 1]
    requires Matches(l, m) && Ascending(l, m)
    ensures Matches(r, m - {l[i].key}) && Ascending(r, m - {l[i].key})
  {
    var n := m - {l[i].key};
    forall j | 0 <= j < |r|
      ensures r[j].key in n && n[r[j].key].value == r[j].value && n[r[j].key].expiration == r[j].expiration
    {
      var p := if j < i then j else j + 1;
      assert l[p].key != l[i].key;
    }
  }

  lemma RemovedAt<V>(l: seq<Item<V>>, i: nat, r: seq<Item<V>>)
    requires i < |l| && r == l[..i] + l[i + 1..]
    ensures |r| == |l| - 1 && forall j :: 0 <= j < |r| ==> r[j] == l[if j < i then j else j + 1]
  {
  }

  lemma RemovedCovers<V>(l: seq<Item<V>>, m: map<string, Entry<V>>, i: nat, r: seq<Item<V>>)
    requires i < |l| && |r| == |l| - 1 && forall j :: 0 <= j < |r| ==> r[j] == l[if j < i then j else j + 1]
    requires Covers(l, m)
    ensures Covers(r, m - {l[i].key})
  {
    forall k | k in m - {l[i].key} ensures exists j :: 0 <= j < |r| && r[j].key == k {
      var p :| 0 <= p < |l| && l[p].key == k;
      assert r[if p < i then p else p - 1].key == k;
    }
  }

  lemma AppendOrders<V>(l: seq<Item<V>>, m: map<string, Entry<V>>, item: Item<V>, e: Entry<V>)
    requires Orders(l, m) && item.key !in m && e.value == item.value && e.expiration == item.expiration
    requires forall k :: k in m ==> m[k].accessTime < e.accessTime
    ensures Orders(l + [item], m[item.key := e])
  {
    var r, n := l + [item], m[item.key := e];
    forall k | k in n ensures exists j :: 0 <= j < |r| && r[j].key == k {
      if k == item.key {
        assert r[|l|].key == k;
      } else {
        var p :| 0 <= p < |l| && l[p].key == k;
        assert r[p].key == k;
      }
    }
  }

  /** A hit moves to the back; a miss, also by expiry, moves nothing. */
  lemma GetRefines<V>(l: seq<Item<V>>, m: map<string, Entry<V>>, key: string, checked: int, touched: int)
    requires Orders(l, m) && UsedBefore(m, checked) && checked < touched
    ensures var (n, v) := GetFrom(m, key, checked, touched); var (r, w) := ListGet(l, key, checked);
            v == w && Orders(r, n) && UsedBefore(n, touched)
  {
    hide Orders, Find, Removed;
    RemovedOrders(l, m, key);
    var i := Find(l, key);
    if i < |l| && checked <= l[i].expiration {
      var e := m[key].(accessTime := touched);
      AppendOrders(Removed(l, key), m - {key}, l[i], e);
      assert (m - {key})[key := e] == m[key := e];
    }
  }

  /** An insert into a full cache evicts the head of the list. */
  lemma SetRefines<V>(l: seq<Item<V>>, m: map<string, Entry<V>>, max: int, item: Item<V>, e: Entry<V>,
                      n: map<string, Entry<V>>)
    requires Orders(l, m) && UsedBefore(m, e.accessTime - 1) && "" !in m
    requires e.value == item.value && e.expiration == item.expiration && SetsTo(m, max, item.key, e, n)
    ensures Orders(ListSet(l, max, item), n) && UsedBefore(n, e.accessTime)
  {
    hide Orders, Find, Removed, IsVictim;
    SameSize(l, m);
    RemovedOrders(l, m, item.key);
    if |m| >= max && item.key !in m && m != map[] {
      var v :| IsVictim(m, v) && n == Evicted(m, v)[item.key := e];
      EvictionRefines(l, m, v, item, e);
    } else {
      AppendOrders(Removed(l, item.key), m - {item.key}, item, e);
      assert (m - {item.key})[item.key := e] == n;
    }
  }

  lemma EvictionRefines<V>(l: seq<Item<V>>, m: map<string, Entry<V>>, v: string, item: Item<V>, e: Entry<V>)
    requires Orders(l, m) && UsedBefore(m, e.accessTime - 1) && IsVictim(m, v) && item.key !in m
    requires e.value == item.value && e.expiration == item.expiration
    ensures l != [] && v in m && Orders(l[1..] + [item], (m - {v})[item.key := e])
    ensures UsedBefore((m - {v})[item.key := e], e.accessTime)
  {
    HeadIsVictim(l, m, v);
    RemovedOrders(l, m, v);
    RemovedHead(l);
    hide Orders, Find, Removed;
    AppendOrders(l[1..], m - {v}, item, e);
  }

  lemma RemovedHead<V>(l: seq<Item<V>>)
    requires l != []
    ensures Removed(l, l[0].key) == l[1..]
  {
    assert Find(l, l[0].key) == 0;
  }

  lemma HeadIsVictim<V>(l: seq<Item<V>>, m: map<string, Entry<V>>, v: string)
    requires Orders(l, m) && IsVictim(m, v)
    ensures l != [] && l[0].key == v
  {
    var i :| 0 <= i < |l| && l[i].key == v;
    assert i > 0 ==> Older(m[l[i].key], m[l[0].key]);
  }

  // ---------- runs ----------

  datatype Op<V> =
    | GetOp(key: string, checked: int, touched: int)
    | SetOp(key: string, value: V, now: int, ttl: int)
    | DropOp(key: string)

  /** Some run of the map: `maps[i + 1]` comes from `maps[i]` by the `i`-th operation. */
  ghost predicate MapStep<V>(m: map<string, Entry<V>>, max: int, op: Op<V>, counter: int, n: map<string, Entry<V>>) {
    match op
    case GetOp(key, checked, touched) => n == GetFrom(m, key, checked, touched).0
    case SetOp(key, value, now, ttl) => SetsTo(m, max, key, Entry(value, now + ttl, now, counter), n)
    case DropOp(key) => n == m - {key}
  }

  function ListStep<V>(l: seq<Item<V>>, max: int, op: Op<V>): seq<Item<V>> {
    match op
    case GetOp(key, checked, touched) => ListGet(l, key, checked).0
    case SetOp(key, value, now, ttl) => ListSet(l, max, Item(key, value, now + ttl))
    case DropOp(key) => Removed(l, key)
  }

  function ListRun<V>(l: seq<Item<V>>, max: int, ops: seq<Op<V>>): seq<Item<V>> {
    if ops == [] then l else ListStep(ListRun(l, max, ops[..|ops| - 1]), max, ops[|ops| - 1])
  }

  /** Every reading of the clock is later than the one before. */
  predicate StrictClock<V>(ops: seq<Op<V>>, since: int)
    decreases |ops|
  {
    ops == [] ||
    (match ops[0]
     case GetOp(_, checked, touched) => since < checked < touched && StrictClock(ops[1..], touched)
     case SetOp(_, _, now, _) => since < now && StrictClock(ops[1..], now)
     case DropOp(_) => StrictClock(ops[1..], since))
  }

  ghost predicate MapRun<V>(maps: seq<map<string, Entry<V>>>, max: int, ops: seq<Op<V>>, counters: seq<int>) {
    && |maps| == |ops| + 1 && |counters| == |ops|
    && forall i :: 0 <= i < |ops| ==> MapStep(maps[i], max, ops[i], counters[i], maps[i + 1])
  }

  /** The answers of the gets of a run of the list. */
  function ListAnswers<V>(l: seq<Item<V>>, max: int, ops: seq<Op<V>>): seq<Option<V>>
    decreases |ops|
  {
    if ops == [] then []
    else (if ops[0].GetOp? then [ListGet(l, ops[0].key, ops[0].checked).1] else [])
         + ListAnswers(ListStep(l, max, ops[0]), max, ops[1..])
  }

  ghost function MapAnswers<V>(maps: seq<map<string, Entry<V>>>, ops: seq<Op<V>>): seq<Option<V>>
    requires |maps| == |ops| + 1
    decreases |ops|
  {
    if ops == [] then []
    else (if ops[0].GetOp? then [GetFrom(maps[0], ops[0].key, ops[0].checked, ops[0].touched).1] else [])
         + MapAnswers(maps[1..], ops[1..])
  }

  /** Refinement: with strictly increasing readings of the clock and non-empty keys, the cache answers
      every sequence of operations as the least-recently-used list with expiry does. */
  lemma {:induction false} CacheIsLru<V>(l: seq<Item<V>>, maps: seq<map<string, Entry<V>>>, max: int,
                                         ops: seq<Op<V>>, counters: seq<int>, since: int)
    requires MapRun(maps, max, ops, counters) && StrictClock(ops, since)
    requires Orders(l, maps[0]) && UsedBefore(maps[0], since) && "" !in maps[0]
    requires forall i :: 0 <= i < |ops| ==> ops[i].key != ""
    ensures MapAnswers(maps, ops) == ListAnswers(l, max, ops)
    decreases |ops|
  {
    if ops != [] {
      assert MapStep(maps[0], max, ops[0], counters[0], maps[0 + 1]);
      var later := StepRefines(l, maps[0], max, ops[0], counters[0], maps[1], since, ops);
      assert MapRun(maps[1..], max, ops[1..], counters[1..]) by {
        forall i | 0 <= i < |ops[1..]|
          ensures MapStep(maps[1..][i], max, ops[1..][i], counters[1..][i], maps[1..][i + 1])
        {
          assert MapStep(maps[i + 1], max, ops[i + 1], counters[i + 1], maps[i + 1 + 1]);
        }
      }
      hide MapStep, Orders, UsedBefore, ListStep, GetFrom, ListGet, StrictClock, MapRun;
      CacheIsLru(ListStep(l, max, ops[0]), maps[1..], max, ops[1..], counters[1..], later);
    }
  }

  lemma StepRefines<V>(l: seq<Item<V>>, m: map<string, Entry<V>>, max: int, op: Op<V>, counter: int,
                       n: map<string, Entry<V>>, since: int, ops: seq<Op<V>>)
    returns (later: int)
    requires ops != [] && ops[0] == op && StrictClock(ops, since)
    requires Orders(l, m) && UsedBefore(m, since) && "" !in m && op.key != "" && MapStep(m, max, op, counter, n)
    ensures Orders(ListStep(l, max, op), n) && UsedBefore(n, later) && "" !in n && StrictClock(ops[1..], later)
    ensures op.GetOp? ==> GetFrom(m, op.key, op.checked, op.touched).1 == ListGet(l, op.key, op.checked).1
  {
    hide Orders;
    match op
    case GetOp(key, checked, touched) =>
      later := touched;
      GetRefines(l, m, key, checked, touched);
    case SetOp(key, value, now, ttl) =>
      later := now;
      SetRefines(l, m, max, Item(key, value, now + ttl), Entry(value, now + ttl, now, counter), n);
    case DropOp(key) =>
      later := since;
      RemovedOrders(l, m, key);
  }

  // ---------- size ----------

  /** The size bound: over any run with non-empty keys the cache never holds more than its maximum. */
  lemma {:induction false} SizeBound<V>(maps: seq<map<string, Entry<V>>>, max: int, ops: seq<Op<V>>,
                                        counters: seq<int>, k: nat)
    requires MapRun(maps, max, ops, counters) && k <= |ops| && |maps| == |ops| + 1 && |counters| == |ops|
    requires 1 <= max && Bounded(maps[0], max) && forall i :: 0 <= i < |ops| ==> ops[i].key != ""
    ensures Bounded(maps[k], max)
  {
    hide *;
    if k > 0 {
      SizeBound(maps, max, ops, counters, k - 1);
      RunStep(maps, max, ops, counters, k - 1);
      StepKeepsBound(maps[k - 1], max, ops[k - 1], counters[k - 1], maps[k]);
    }
  }

  lemma RunStep<V>(maps: seq<map<string, Entry<V>>>, max: int, ops: seq<Op<V>>, counters: seq<int>, k: nat)
    requires MapRun(maps, max, ops, counters) && k < |ops|
    ensures |maps| == |ops| + 1 && |counters| == |ops| && MapStep(maps[k], max, ops[k], counters[k], maps[k + 1])
  {
    hide MapStep;
  }

  lemma StepKeepsBound<V>(m: map<string, Entry<V>>, max: int, op: Op<V>, counter: int, n: map<string, Entry<V>>)
    requires MapStep(m, max, op, counter, n) && 1 <= max && Bounded(m, max) && op.key != ""
    ensures Bounded(n, max)
  {
    SizeAfterStep(m, max, op, counter, n);
  }

  /** An insert of a new key into a full cache that evicts nothing: the victim has the empty key. */
  ghost predicate Overflows<V>(m: map<string, Entry<V>>, max: int, op: Op<V>) {
    op.SetOp? && op.key !in m && |m| >= max && IsVictim(m, "")
  }

  /** The exact condition for the maximum over any run, empty keys included. */
  lemma SizeBoundIff<V>(maps: seq<map<string, Entry<V>>>, max: int, ops: seq<Op<V>>, counters: seq<int>)
    requires MapRun(maps, max, ops, counters) && 1 <= max && |maps[0]| <= max
    ensures (forall k :: 0 <= k <= |ops| ==> |maps[k]| <= max)
            <==> forall k :: 0 <= k < |ops| ==> !Overflows(maps[k], max, ops[k])
  {
    if forall k :: 0 <= k < |ops| ==> !Overflows(maps[k], max, ops[k]) {
      forall k | 0 <= k <= |ops| ensures |maps[k]| <= max {
        StaysWithin(maps, max, ops, counters, k);
      }
    } else {
      var k :| 0 <= k < |ops| && Overflows(maps[k], max, ops[k]);
      RunStep(maps, max, ops, counters, k);
      SizeAfterStep(maps[k], max, ops[k], counters[k], maps[k + 1]);
    }
  }

  lemma {:induction false} StaysWithin<V>(maps: seq<map<string, Entry<V>>>, max: int, ops: seq<Op<V>>,
                                          counters: seq<int>, k: nat)
    requires MapRun(maps, max, ops, counters) && k <= |ops| && 1 <= max && |maps[0]| <= max
    requires forall i :: 0 <= i < |ops| ==> !Overflows(maps[i], max, ops[i])
    ensures |maps[k]| <= max
  {
    if k > 0 {
      StaysWithin(maps, max, ops, counters, k - 1);
      RunStep(maps, max, ops, counters, k - 1);
      assert !Overflows(maps[k - 1], max, ops[k - 1]);
      hide MapStep, MapRun, Overflows;
      SizeAfterStep(maps[k - 1], max, ops[k - 1], counters[k - 1], maps[k]);
    }
  }

  lemma SizeAfterStep<V>(m: map<string, Entry<V>>, max: int, op: Op<V>, counter: int, n: map<string, Entry<V>>)
    requires MapStep(m, max, op, counter, n) && 1 <= max
    ensures |m| <= max && !Overflows(m, max, op) ==> |n| <= max
    ensures Overflows(m, max, op) ==> |n| == |m| + 1
  {
    match op
    case GetOp(key, checked, touched) =>
      if n != m {
        Grown(m, key, m[key].(accessTime := touched));
      }
    case SetOp(key, value, now, ttl) =>
      SizeAfterSet(m, max, key, Entry(value, now + ttl, now, counter), n);
    case DropOp(key) =>
      DropKeepsBound(m, {key});
  }

  /** While the entry with the empty key is the victim of a full cache, nothing limits the growth: each
      insert of a new key adds an entry. */
  lemma {:induction false} EmptyKeyUnbounds<V>(maps: seq<map<string, Entry<V>>>, max: int, ops: seq<Op<V>>,
                                               counters: seq<int>, k: nat)
    requires MapRun(maps, max, ops, counters) && k <= |ops| && max <= |maps[0]| && IsVictim(maps[0], "")
    requires forall i :: 0 <= i < |ops| ==>
               && ops[i].SetOp? && ops[i].key !in maps[0]
               && Older(maps[0][""], Entry(ops[i].value, ops[i].now + ops[i].ttl, ops[i].now, counters[i]))
    requires forall i, j :: 0 <= i < j < |ops| ==> ops[i].key != ops[j].key
    ensures |maps[k]| == |maps[0]| + k && IsVictim(maps[k], "") && maps[k][""] == maps[0][""]
    ensures forall i :: k <= i < |ops| ==> ops[i].key !in maps[k]
  {
    if k > 0 {
      EmptyKeyUnbounds(maps, max, ops, counters, k - 1);
      assert MapStep(maps[k - 1], max, ops[k - 1], counters[k - 1], maps[k - 1 + 1]);
      var op := ops[k - 1];
      hide MapRun;
      GrowsPastMaximum(maps[k - 1], max, op.key, Entry(op.value, op.now + op.ttl, op.now, counters[k - 1]), maps[k]);
    }
  }

  lemma GrowsPastMaximum<V>(m: map<string, Entry<V>>, max: int, key: string, e: Entry<V>, n: map<string, Entry<V>>)
    requires SetsTo(m, max, key, e, n) && |m| >= max && key !in m && IsVictim(m, "") && Older(m[""], e)
    ensures |n| == |m| + 1 && IsVictim(n, "") && n == m[key := e]
  {
    var v :| IsVictim(m, v) && n == Evicted(m, v)[key := e];
    VictimUnique(m, v, "");
    SizeAfterSet(m, max, key, e, n);
  }

  // ---------- the object ----------

  class LRUCache {
    var entitlements: map<string, Entry<Entitlement>>
    var usage: map<string, Entry<Usage>>
    var sequence: int
    const maxEntitlements: int
    const maxUsage: int

    ghost predicate Valid()
      reads this
    {
      Numbered(entitlements, sequence) && Numbered(usage, sequence) && 1 <= maxEntitlements && 1 <= maxUsage
    }

    constructor (maxEntitlements: int, maxUsage: int)
      ensures Valid() && entitlements == map[] && usage == map[]
      ensures this.maxEntitlements == if maxEntitlements <= 0 then 1000 else maxEntitlements
      ensures this.maxUsage == if maxUsage <= 0 then 10000 else maxUsage
    {
      this.maxEntitlements := if maxEntitlements <= 0 then 1000 else maxEntitlements;
      this.maxUsage := if maxUsage <= 0 then 10000 else maxUsage;
      entitlements, usage, sequence := map[], map[], 0;
    }

    /** The walk over the entries, in whatever order the map yields them. */
    static method Oldest<V>(m: map<string, Entry<V>>, ghost counter: int) returns (oldestKey: string)
      requires Numbered(m, counter) && m != map[]
      ensures IsVictim(m, oldestKey)
    {
      oldestKey := "";
      var oldestTime, oldestSeq := 0, 0;
      var first := true;
      var keys := m.Keys;
      while keys != {}
        invariant keys <= m.Keys
        invariant first ==> keys == m.Keys
        invariant !first ==> oldestKey in m && oldestKey !in keys && oldestTime == m[oldestKey].accessTime
                             && oldestSeq == m[oldestKey].sequence
        invariant !first ==> forall k :: k in m && k !in keys && k != oldestKey ==> Older(m[oldestKey], m[k])
        decreases |keys|
      {
        var key :| key in keys;
        keys := keys - {key};
        var entry := m[key];
        if first || entry.accessTime < oldestTime || (entry.accessTime == oldestTime && entry.sequence < oldestSeq) {
          oldestKey := key;
          oldestTime := entry.accessTime;
          oldestSeq := entry.sequence;
          first := false;
        }
      }
    }

    static method Put<V>(m: map<string, Entry<V>>, max: int, key: string, value: V, now: int, ttl: int, seqNo: int)
      returns (n: map<string, Entry<V>>)
      requires Numbered(m, seqNo) && 1 <= max
      ensures SetsTo(m, max, key, Entry(value, now + ttl, now, seqNo), n)
      ensures Numbered(n, seqNo + 1)
      ensures key in n && n[key] == Entry(value, now + ttl, now, seqNo)
      ensures forall k :: k in n && k != key ==> k in m && n[k] == m[k]
      ensures Bounded(m, max) && key != "" ==> Bounded(n, max)
    {
      n := m;
      if |m| >= max && key !in m {
        var oldestKey := Oldest(m, seqNo);
        if oldestKey != "" {
          n := m - {oldestKey};
        }
        assert IsVictim(m, oldestKey) && n == Evicted(m, oldestKey);
      }
      n := n[key := Entry(value, now + ttl, now, seqNo)];
      if Bounded(m, max) && key != "" {
        SetKeepsBound(m, max, key, Entry(value, now + ttl, now, seqNo), n);
      }
    }

    method GetUsage(key: string, checked: int, touched: int) returns (u: Option<Usage>)
      requires Valid()
      modifies this`usage
      ensures Valid() && (usage, u) == GetFrom(old(usage), key, checked, touched)
      ensures old(Bounded(usage, maxUsage)) ==> Bounded(usage, maxUsage)
    {
      if key !in usage || checked > usage[key].expiration {
        return None;
      }
      Grown(usage, key, usage[key].(accessTime := touched));
      usage := usage[key := usage[key].(accessTime := touched)];
      return Some(usage[key].value);
    }

    method SetUsage(key: string, u: Usage, now: int, ttl: int)
      requires Valid()
      modifies this`usage, this`sequence
      ensures Valid() && SetsTo(old(usage), maxUsage, key, Entry(u, now + ttl, now, old(sequence)), usage)
      ensures sequence == old(sequence) + 1
      ensures old(Bounded(usage, maxUsage)) && key != "" ==> Bounded(usage, maxUsage)
      ensures key in usage && usage[key].value == u && usage[key].expiration == now + ttl
      ensures forall k :: k in usage && k != key ==> k in old(usage) && usage[k] == old(usage)[k]
    {
      usage := Put(usage, maxUsage, key, u, now, ttl, sequence);
      sequence := sequence + 1;
    }

    /** What a caller does to the object it handed over: the entry refers to it. */
    method PatchUsage(key: string, u: Usage)
      requires Valid() && key in usage
      modifies this`usage
      ensures Valid() && usage == old(usage)[key := old(usage)[key].(value := u)]
      ensures old(Bounded(usage, maxUsage)) ==> Bounded(usage, maxUsage)
    {
      Grown(usage, key, usage[key].(value := u));
      usage := usage[key := usage[key].(value := u)];
    }

    method InvalidateUsage(key: string)
      requires Valid()
      modifies this`usage
      ensures Valid() && usage == old(usage) - {key}
      ensures old(Bounded(usage, maxUsage)) ==> Bounded(usage, maxUsage)
    {
      DropKeepsBound(usage, {key});
      usage := usage - {key};
    }

    method GetEntitlement(userID: string, checked: int, touched: int) returns (e: Option<Entitlement>)
      requires Valid()
      modifies this`entitlements
      ensures Valid() && (entitlements, e) == GetFrom(old(entitlements), userID, checked, touched)
      ensures old(Bounded(entitlements, maxEntitlements)) ==> Bounded(entitlements, maxEntitlements)
    {
      if userID !in entitlements || checked > entitlements[userID].expiration {
        return None;
      }
      Grown(entitlements, userID, entitlements[userID].(accessTime := touched));
      entitlements := entitlements[userID := entitlements[userID].(accessTime := touched)];
      return Some(entitlements[userID].value);
    }

    method SetEntitlement(userID: string, e: Entitlement, now: int, ttl: int)
      requires Valid()
      modifies this`entitlements, this`sequence
      ensures Valid()
      ensures SetsTo(old(entitlements), maxEntitlements, userID, Entry(e, now + ttl, now, old(sequence)), entitlements)
      ensures sequence == old(sequence) + 1
      ensures old(Bounded(entitlements, maxEntitlements)) && userID != "" ==> Bounded(entitlements, maxEntitlements)
      ensures userID in entitlements && entitlements[userID].value == e && entitlements[userID].expiration == now + ttl
      ensures forall k :: k in entitlements && k != userID ==>
                k in old(entitlements) && entitlements[k] == old(entitlements)[k]
    {
      entitlements := Put(entitlements, maxEntitlements, userID, e, now, ttl, sequence);
      sequence := sequence + 1;
    }

    method InvalidateEntitlement(userID: string)
      requires Valid()
      modifies this`entitlements
      ensures Valid() && entitlements == old(entitlements) - {userID}
      ensures old(Bounded(entitlements, maxEntitlements)) ==> Bounded(entitlements, maxEntitlements)
    {
      DropKeepsBound(entitlements, {userID});
      entitlements := entitlements - {userID};
    }
  }
}
