/**
 The hot/cold replication protocol of `storage/tiered/tiered.go` as interleaved steps.  A consumption
 is accepted by the hot store under its lock; the caller hands the accepted request to the bounded
 queue later, outside that lock, so other callers may overtake it; a full queue drops it; the worker
 replays the queue into the cold store in order.
 */
module TieredProtocol {
  import opened Ledger

  datatype Tiers = Tiers(
    hot: State,
    cold: State,
    inflight: seq<ConsumeRequest>,
    queue: seq<ConsumeRequest>,
    dropped: seq<ConsumeRequest>)

  datatype Action = Accept(req: ConsumeRequest) | Enqueue(i: nat) | Drop(i: nat) | Work

  function Without<T>(s: seq<T>, i: nat): seq<T>
    requires i < |s|
  {
    s[..i] + s[i + 1..]
  }

  predicate Enabled(t: Tiers, a: Action, capacity: nat) {
    match a
    case Accept(req) => true
    case Enqueue(i) => i < |t.inflight| && |t.queue| < capacity
    case Drop(i) => i < |t.inflight| && |t.queue| >= capacity
    case Work => t.queue != []
  }

  function Next(t: Tiers, a: Action, capacity: nat): Tiers
    requires Enabled(t, a, capacity)
  {
    match a
    case Accept(req) =>
      var (hot, reply) := Consume(t.hot, req);
      t.(hot := hot, inflight := if reply.err == NoError then t.inflight + [req] else t.inflight)
    case Enqueue(i) => t.(queue := t.queue + [t.inflight[i]], inflight := Without(t.inflight, i))
    case Drop(i) => t.(dropped := t.dropped + [t.inflight[i]], inflight := Without(t.inflight, i))
    case Work => t.(cold := Consume(t.cold, t.queue[0]).0, queue := t.queue[1..])
  }

  ghost predicate Runs(t: Tiers, acts: seq<Action>, capacity: nat, end: Tiers)
    decreases |acts|
  {
    if acts == [] then end == t
    else Enabled(t, acts[0], capacity) && Runs(Next(t, acts[0], capacity), acts[1..], capacity, end)
  }

  /** Applying accepted requests one after the other. */
  function Replay(s: State, reqs: seq<ConsumeRequest>): State
    decreases |reqs|
  {
    if reqs == [] then s else Replay(Consume(s, reqs[0]).0, reqs[1..])
  }

  lemma {:induction false} ReplayAppend(s: State, reqs: seq<ConsumeRequest>, req: ConsumeRequest)
    ensures Replay(s, reqs + [req]) == Consume(Replay(s, reqs), req).0
    decreases |reqs|
  {
    if reqs == [] {
      assert (reqs + [req])[1..] == [];
    } else {
      assert (reqs + [req])[1..] == reqs[1..] + [req];
      ReplayAppend(Consume(s, reqs[0]).0, reqs[1..], req);
    }
  }

  // ---------- simulation, when hand-over keeps the order and nothing is dropped ----------

  predicate InOrder(acts: seq<Action>) {
    forall k :: 0 <= k < |acts| ==> !acts[k].Drop? && (acts[k].Enqueue? ==> acts[k].i == 0)
  }

  /** Replaying the outstanding jobs into cold gives exactly the hot ledger. */
  ghost predicate Simulates(t: Tiers) {
    Replay(t.cold, t.queue + t.inflight) == t.hot
  }

  lemma StepSimulates(t: Tiers, a: Action, capacity: nat)
    requires Enabled(t, a, capacity) && Simulates(t)
    requires !a.Drop? && (a.Enqueue? ==> a.i == 0)
    ensures Simulates(Next(t, a, capacity))
  {
    hide Consume;
    var u := Next(t, a, capacity);
    match a
    case Accept(req) =>
      if Consume(t.hot, req).1.err == NoError {
        ReplayAppend(t.cold, t.queue + t.inflight, req);
        assert u.queue + u.inflight == (t.queue + t.inflight) + [req];
      } else {
        RefusedChangesNothing(t.hot, req);
      }
    case Enqueue(i) =>
      assert u.queue + u.inflight == t.queue + t.inflight;
    case Work =>
      assert (t.queue + t.inflight)[1..] == u.queue + u.inflight;
  }

  lemma RefusedChangesNothing(s: State, req: ConsumeRequest)
    ensures Consume(s, req).1.err != NoError ==> Consume(s, req).0 == s
  {
  }

  /** Simulation over runs: records, idempotent hits and rows included.  Once everything accepted has
      been handed over and worked off, the two ledgers are equal. */
  lemma {:induction false} RunSimulates(t: Tiers, acts: seq<Action>, capacity: nat, end: Tiers)
    requires Simulates(t) && InOrder(acts) && Runs(t, acts, capacity, end)
    ensures Simulates(end)
    ensures end.queue == [] && end.inflight == [] ==> end.cold == end.hot
    decreases |acts|
  {
    if acts != [] {
      hide Simulates, Next;
      StepSimulates(t, acts[0], capacity);
      RunSimulates(Next(t, acts[0], capacity), acts[1..], capacity, end);
    }
  }

  /** The work can always be finished: with room for one job, hand-over in order and the worker bring everything
      accepted into cold, with nothing dropped and hot untouched. */
  lemma CanDrain(t: Tiers, capacity: nat) returns (acts: seq<Action>, end: Tiers)
    requires 1 <= capacity
    ensures Runs(t, acts, capacity, end) && InOrder(acts)
    ensures end.queue == [] && end.inflight == [] && end.hot == t.hot && end.dropped == t.dropped
    ensures end.cold == Replay(t.cold, t.queue + t.inflight)
    decreases 2 * |t.inflight| + |t.queue|
  {
    hide Consume, Replay;
    if t.queue == [] && t.inflight == [] {
      acts, end := [], t;
      NothingToReplay(t);
    } else {
      var a := if t.queue != [] then Work else Enqueue(0);
      OutstandingStays(t, a, capacity);
      acts, end := CanDrain(Next(t, a, capacity), capacity);
      RunsCons(t, a, acts, capacity, end);
      acts := [a] + acts;
    }
  }

  lemma NothingToReplay(t: Tiers)
    requires t.queue == [] && t.inflight == []
    ensures Replay(t.cold, t.queue + t.inflight) == t.cold
  {
  }

  /** The worker's turn, and an orderly hand-over, leave what replaying everything outstanding will give. */
  lemma OutstandingStays(t: Tiers, a: Action, capacity: nat)
    requires Enabled(t, a, capacity) && (a == Work || a == Enqueue(0))
    ensures var u := Next(t, a, capacity); Replay(u.cold, u.queue + u.inflight) == Replay(t.cold, t.queue + t.inflight)
  {
    hide Consume;
    var u := Next(t, a, capacity);
    if a == Work {
      assert (t.queue + t.inflight)[0] == t.queue[0] && (t.queue + t.inflight)[1..] == u.queue + u.inflight;
    } else {
      assert u.queue + u.inflight == t.queue + t.inflight;
    }
  }

  function Accepts(acts: seq<Action>): nat {
    if acts == [] then 0 else (if acts[0].Accept? then 1 else 0) + Accepts(acts[1..])
  }

  /** The queue never grows past its capacity, and nothing is dropped from a run whose accepted requests, with
      those outstanding at its start, fit into the queue. */
  lemma {:induction false} QueueBound(t: Tiers, acts: seq<Action>, capacity: nat, end: Tiers)
    requires Runs(t, acts, capacity, end) && |t.queue| <= capacity
    ensures |end.queue| <= capacity
    ensures |t.queue| + |t.inflight| + Accepts(acts) <= capacity ==> end.dropped == t.dropped
    ensures |t.dropped| <= |end.dropped|
    decreases |acts|
  {
    hide Consume;
    if acts != [] {
      QueueBound(Next(t, acts[0], capacity), acts[1..], capacity, end);
    }
  }

  lemma RunsCons(t: Tiers, a: Action, acts: seq<Action>, capacity: nat, end: Tiers)
    requires Enabled(t, a, capacity) && Runs(Next(t, a, capacity), acts, capacity, end)
    ensures Runs(t, [a] + acts, capacity, end)
  {
    assert ([a] + acts)[1..] == acts;
  }

  /** Why the order matters: two charged requests that reach the cold store in the other order leave
      the same row total, but other answers on record. */
  lemma OvertakingChangesRecords(s: State, a: ConsumeRequest, b: ConsumeRequest)
    requires a.amount > 0 && b.amount > 0 && RequestRow(a) == RequestRow(b) && a.limit == b.limit
    requires a.key != "" && b.key != "" && a.key != b.key
    requires a.key !in s.consumptions && b.key !in s.consumptions
    requires Fits(a.limit, UsedOf(s, RequestRow(a)) + a.amount + b.amount)
    ensures var x, y := Replay(s, [a, b]), Replay(s, [b, a]);
            && UsedOf(x, RequestRow(a)) == UsedOf(y, RequestRow(a))
            && a.key in x.consumptions && a.key in y.consumptions
            && y.consumptions[a.key].newUsed == x.consumptions[a.key].newUsed + b.amount
  {
    TwoInARow(s, a, b);
    TwoInARow(s, b, a);
    TwoOnOneRow(s, a, b);
    TwoOnOneRow(s, b, a);
    hide Consume, RequestRow, Replay, UsedOf;
  }

  lemma TwoOnOneRow(s: State, a: ConsumeRequest, b: ConsumeRequest)
    requires a.amount > 0 && b.amount > 0 && RequestRow(a) == RequestRow(b) && a.limit == b.limit
    requires a.key != "" && b.key != "" && a.key != b.key
    requires a.key !in s.consumptions && b.key !in s.consumptions
    requires Fits(a.limit, UsedOf(s, RequestRow(a)) + a.amount + b.amount)
    ensures var x := Consume(Consume(s, a).0, b).0; var used := UsedOf(s, RequestRow(a));
            && UsedOf(x, RequestRow(a)) == used + a.amount + b.amount && a.key in x.consumptions
            && b.key in x.consumptions
            && x.consumptions[a.key].newUsed == used + a.amount
            && x.consumptions[b.key].newUsed == used + a.amount + b.amount
  {
    hide RequestRow;
  }

  /** Hot answered both requests without an error, `a` first, and so both are queued. */
  predicate HotAnswered(s: State, a: ConsumeRequest, b: ConsumeRequest) {
    Consume(s, a).1.err == NoError && Consume(Consume(s, a).0, b).1.err == NoError
  }

  /** A request that changes nothing: it asks for nothing, or its key was on record before. */
  predicate Inert(s: State, r: ConsumeRequest) {
    r.amount == 0 || (r.key != "" && r.key in s.consumptions)
  }

  predicate SharedKey(a: ConsumeRequest, b: ConsumeRequest) {
    a.key != "" && a.key == b.key
  }

  /** Neither carries a key, and both write the same row contents but for the used amount. */
  predicate Alike(a: ConsumeRequest, b: ConsumeRequest) {
    && a.key == "" && b.key == "" && a.userID == b.userID && a.resource == b.resource
    && a.period == b.period && a.limit == b.limit && a.tier == b.tier
  }

  /** Exactly when it is harmless that the later of two requests overtakes the earlier: one of them changes
      nothing; or they share a new key, and are one request, or cold has no room for the later one; or they
      share no key, and are on different rows or write the same row contents. */
  lemma OvertakingHarmlessIff(s: State, a: ConsumeRequest, b: ConsumeRequest)
    requires HotAnswered(s, a, b)
    ensures Replay(s, [a, b]) == Replay(s, [b, a])
            <==> if Inert(s, a) || Inert(s, b) then true
                 else if SharedKey(a, b) then a == b || !Fits(b.limit, UsedOf(s, RequestRow(b)) + b.amount)
                 else RequestRow(a) != RequestRow(b) || Alike(a, b)
  {
    TwoInARow(s, a, b);
    TwoInARow(s, b, a);
    SwapCases(s, a, b);
    hide *;
  }

  /** Exactly when the totals of all rows survive the overtaking.  They do not when the later request wins a
      shared key with another row or amount, or leaves no room for the earlier one. */
  lemma OvertakingKeepsTotalsIff(s: State, a: ConsumeRequest, b: ConsumeRequest)
    requires HotAnswered(s, a, b)
    ensures (forall row :: UsedOf(Replay(s, [a, b]), row) == UsedOf(Replay(s, [b, a]), row))
            <==> if Inert(s, a) || Inert(s, b) then true
                 else if SharedKey(a, b)
                 then (RequestRow(a) == RequestRow(b) && a.amount == b.amount)
                      || !Fits(b.limit, UsedOf(s, RequestRow(b)) + b.amount)
                 else RequestRow(a) != RequestRow(b) || Fits(a.limit, UsedOf(s, RequestRow(a)) + a.amount + b.amount)
  {
    TwoInARow(s, a, b);
    TwoInARow(s, b, a);
    SwapCases(s, a, b);
    hide HotAnswered, Inert, SharedKey, Alike, Replay, RequestRow, Fits;
  }

  /** One new key on two rows, the later request overtaking: cold charges the other row, past hot. */
  lemma OvertakenReplay(s: State, a: ConsumeRequest, b: ConsumeRequest)
    requires HotAnswered(s, a, b) && !Inert(s, a) && !Inert(s, b) && SharedKey(a, b)
    requires RequestRow(a) != RequestRow(b) && Fits(b.limit, UsedOf(s, RequestRow(b)) + b.amount)
    ensures var hot, cold := Replay(s, [a, b]), Replay(s, [b, a]);
            && UsedOf(cold, RequestRow(b)) == UsedOf(hot, RequestRow(b)) + b.amount
            && UsedOf(cold, RequestRow(a)) == UsedOf(hot, RequestRow(a)) - a.amount
  {
    TwoInARow(s, a, b);
    TwoInARow(s, b, a);
    hide RequestRow, Fits, Replay;
  }

  ghost predicate SameTotals(x: State, y: State) {
    forall row :: UsedOf(x, row) == UsedOf(y, row)
  }

  lemma TwoInARow(s: State, a: ConsumeRequest, b: ConsumeRequest)
    ensures Replay(s, [a, b]) == Consume(Consume(s, a).0, b).0
  {
    hide Consume;
    ReplayAppend(s, [], a);
    ReplayAppend(s, [a], b);
    assert [] + [a] == [a] && [a] + [b] == [a, b];
  }

  lemma SwapCases(s: State, a: ConsumeRequest, b: ConsumeRequest)
    requires HotAnswered(s, a, b)
    ensures var x, y := Consume(Consume(s, a).0, b).0, Consume(Consume(s, b).0, a).0;
            && (x == y <==> if Inert(s, a) || Inert(s, b) then true
                            else if SharedKey(a, b) then a == b || !Fits(b.limit, UsedOf(s, RequestRow(b)) + b.amount)
                            else RequestRow(a) != RequestRow(b) || Alike(a, b))
            && (SameTotals(x, y) <==>
                  if Inert(s, a) || Inert(s, b) then true
                  else if SharedKey(a, b)
                  then (RequestRow(a) == RequestRow(b) && a.amount == b.amount)
                       || !Fits(b.limit, UsedOf(s, RequestRow(b)) + b.amount)
                  else RequestRow(a) != RequestRow(b) || Fits(a.limit, UsedOf(s, RequestRow(a)) + a.amount + b.amount))
  {
    hide Consume, RequestRow, Fits, Inert, SharedKey, Alike, HotAnswered;
    if Inert(s, a) || Inert(s, b) {
      InertSwap(s, a, b);
    } else if SharedKey(a, b) {
      SharedKeySwap(s, a, b);
    } else if RequestRow(a) != RequestRow(b) {
      TwoRowsSwap(s, a, b);
    } else {
      OneRowSwap(s, a, b);
    }
  }

  lemma InertSwap(s: State, a: ConsumeRequest, b: ConsumeRequest)
    requires HotAnswered(s, a, b) && (Inert(s, a) || Inert(s, b))
    ensures Consume(Consume(s, a).0, b).0 == Consume(Consume(s, b).0, a).0
  {
    hide RequestRow, Fits;
  }

  lemma SharedKeySwap(s: State, a: ConsumeRequest, b: ConsumeRequest)
    requires HotAnswered(s, a, b) && !Inert(s, a) && !Inert(s, b) && SharedKey(a, b)
    ensures var x, y := Consume(Consume(s, a).0, b).0, Consume(Consume(s, b).0, a).0;
            var room := Fits(b.limit, UsedOf(s, RequestRow(b)) + b.amount);
            && (x == y <==> a == b || !room)
            && (SameTotals(x, y) <==> (RequestRow(a) == RequestRow(b) && a.amount == b.amount) || !room)
  {
    hide RequestRow, Fits;
    var x, y := Consume(Consume(s, a).0, b).0, Consume(Consume(s, b).0, a).0;
    assert x == Consume(s, a).0;
    if Consume(s, b).1.err == NoError {
      assert y == Consume(s, b).0;
      assert UsedOf(x, RequestRow(a)) == UsedOf(s, RequestRow(a)) + a.amount;
      assert UsedOf(y, RequestRow(b)) == UsedOf(s, RequestRow(b)) + b.amount;
      assert RequestRow(a) != RequestRow(b) ==> UsedOf(y, RequestRow(a)) == UsedOf(s, RequestRow(a));
      assert x.usage[RequestRow(a)].limit == a.limit && x.usage[RequestRow(a)].tier == a.tier;
    }
  }

  lemma TwoRowsSwap(s: State, a: ConsumeRequest, b: ConsumeRequest)
    requires HotAnswered(s, a, b) && !Inert(s, a) && !Inert(s, b) && !SharedKey(a, b)
    requires RequestRow(a) != RequestRow(b)
    ensures Consume(Consume(s, a).0, b).0 == Consume(Consume(s, b).0, a).0
  {
    Independent(s, a, b);
    ChargedBoth(s, a, b);
    ChargedBoth(s, b, a);
    UpdatesCommute(s.usage, RequestRow(a), RowAfter(s, a), RequestRow(b), RowAfter(s, b));
    PutsCommute(s.consumptions, a.key, RecordAfter(s, a), b.key, RecordAfter(s, b));
    hide Consume, RequestRow, RowAfter, RecordAfter, Inert, Put;
  }

  lemma UpdatesCommute<V>(m: map<string, V>, j: string, v: V, k: string, w: V)
    requires j != k
    ensures m[j := v][k := w] == m[k := w][j := v]
  {
  }

  lemma PutsCommute<V>(m: map<string, V>, j: string, v: V, k: string, w: V)
    requires j == "" || j != k
    ensures Put(Put(m, j, v), k, w) == Put(Put(m, k, w), j, v)
  {
  }

  function RowAfter(s: State, r: ConsumeRequest): Usage {
    Usage(r.userID, r.resource, UsedOf(s, RequestRow(r)) + r.amount, r.limit, r.period, r.tier)
  }

  function RecordAfter(s: State, r: ConsumeRequest): ConsumptionRecord {
    ConsumptionRecord(r.userID, r.resource, r.amount, r.period, UsedOf(s, RequestRow(r)) + r.amount)
  }

  function Put<V>(m: map<string, V>, key: string, v: V): map<string, V> {
    if key == "" then m else m[key := v]
  }

  /** What an accepted request that changes something does. */
  lemma ChargedAs(s: State, r: ConsumeRequest)
    requires !Inert(s, r) && Consume(s, r).1.err == NoError
    ensures Consume(s, r).0 == s.(usage := s.usage[RequestRow(r) := RowAfter(s, r)],
                                  consumptions := Put(s.consumptions, r.key, RecordAfter(s, r)))
  {
    hide RequestRow, Fits;
  }

  lemma ChargedBoth(s: State, a: ConsumeRequest, b: ConsumeRequest)
    requires !Inert(s, a) && !Inert(s, b) && !SharedKey(a, b) && RequestRow(a) != RequestRow(b)
    requires Consume(s, a).1.err == NoError && Consume(s, b).1.err == NoError
    ensures Consume(Consume(s, a).0, b).0
            == s.(usage := s.usage[RequestRow(a) := RowAfter(s, a)][RequestRow(b) := RowAfter(s, b)],
                  consumptions := Put(Put(s.consumptions, a.key, RecordAfter(s, a)), b.key, RecordAfter(s, b)))
  {
    ChargedAs(s, a);
    Independent(s, a, b);
    ChargedAs(Consume(s, a).0, b);
    hide Consume, RequestRow, Inert;
  }

  /** A request on another row, with another key, is answered as if the first had not been. */
  lemma Independent(s: State, a: ConsumeRequest, b: ConsumeRequest)
    requires !Inert(s, a) && !Inert(s, b) && !SharedKey(a, b) && RequestRow(a) != RequestRow(b)
    ensures Consume(Consume(s, a).0, b).1 == Consume(s, b).1
    ensures UsedOf(Consume(s, a).0, RequestRow(b)) == UsedOf(s, RequestRow(b)) && !Inert(Consume(s, a).0, b)
  {
    hide RequestRow, Fits;
  }

  lemma OneRowSwap(s: State, a: ConsumeRequest, b: ConsumeRequest)
    requires HotAnswered(s, a, b) && !Inert(s, a) && !Inert(s, b) && !SharedKey(a, b)
    requires RequestRow(a) == RequestRow(b)
    ensures var x, y := Consume(Consume(s, a).0, b).0, Consume(Consume(s, b).0, a).0;
            && (x == y <==> Alike(a, b))
            && (SameTotals(x, y) <==> Fits(a.limit, UsedOf(s, RequestRow(a)) + a.amount + b.amount))
  {
    if Fits(a.limit, UsedOf(s, RequestRow(a)) + a.amount + b.amount) {
      OneRowWithRoom(s, a, b);
    } else {
      OneRowFull(s, a, b);
    }
    hide Consume, RequestRow, Inert, SharedKey, HotAnswered;
  }

  lemma OneRowWithRoom(s: State, a: ConsumeRequest, b: ConsumeRequest)
    requires HotAnswered(s, a, b) && !Inert(s, a) && !Inert(s, b) && !SharedKey(a, b)
    requires RequestRow(a) == RequestRow(b) && Fits(a.limit, UsedOf(s, RequestRow(a)) + a.amount + b.amount)
    ensures var x, y := Consume(Consume(s, a).0, b).0, Consume(Consume(s, b).0, a).0;
            (x == y <==> Alike(a, b)) && SameTotals(x, y)
  {
    OtherOrderFits(s, a, b);
    OneRowState(s, a, b);
    OneRowState(s, b, a);
    hide Consume, RequestRow, Inert, HotAnswered;
    var x, y := Consume(Consume(s, a).0, b).0, Consume(Consume(s, b).0, a).0;
    var row := RequestRow(a);
    assert x.usage == y.usage <==> x.usage[row] == y.usage[row];
    assert a.key != "" ==> y.consumptions[a.key].newUsed == x.consumptions[a.key].newUsed + b.amount;
    assert b.key != "" ==> x.consumptions[b.key].newUsed == y.consumptions[b.key].newUsed + a.amount;
  }

  lemma OtherOrderFits(s: State, a: ConsumeRequest, b: ConsumeRequest)
    requires HotAnswered(s, a, b) && !Inert(s, a) && !Inert(s, b) && !SharedKey(a, b)
    requires RequestRow(a) == RequestRow(b) && Fits(a.limit, UsedOf(s, RequestRow(a)) + a.amount + b.amount)
    ensures HotAnswered(s, b, a) && a.amount > 0 && b.amount > 0
  {
    hide RequestRow;
  }

  /** Two requests charged to one row, one after the other. */
  lemma OneRowState(s: State, a: ConsumeRequest, b: ConsumeRequest)
    requires HotAnswered(s, a, b) && !Inert(s, a) && !Inert(s, b) && !SharedKey(a, b)
    requires RequestRow(a) == RequestRow(b)
    ensures var used := UsedOf(s, RequestRow(a));
            var first := ConsumptionRecord(a.userID, a.resource, a.amount, a.period, used + a.amount);
            var second := ConsumptionRecord(b.userID, b.resource, b.amount, b.period, used + a.amount + b.amount);
            Consume(Consume(s, a).0, b).0
            == s.(usage := s.usage[RequestRow(a) :=
                    Usage(b.userID, b.resource, used + a.amount + b.amount, b.limit, b.period, b.tier)],
                  consumptions := Put(Put(s.consumptions, a.key, first), b.key, second))
  {
    ChargedAs(s, a);
    StillActive(s, a, b);
    ChargedAs(Consume(s, a).0, b);
    hide Consume, RequestRow, Inert;
  }

  lemma StillActive(s: State, a: ConsumeRequest, b: ConsumeRequest)
    requires !Inert(s, b) && !SharedKey(a, b)
    ensures !Inert(Consume(s, a).0, b)
  {
    hide RequestRow, Fits;
  }

  lemma OneRowFull(s: State, a: ConsumeRequest, b: ConsumeRequest)
    requires HotAnswered(s, a, b) && !Inert(s, a) && !Inert(s, b) && !SharedKey(a, b)
    requires RequestRow(a) == RequestRow(b) && !Fits(a.limit, UsedOf(s, RequestRow(a)) + a.amount + b.amount)
    ensures var x, y := Consume(Consume(s, a).0, b).0, Consume(Consume(s, b).0, a).0;
            UsedOf(x, RequestRow(a)) == UsedOf(y, RequestRow(a)) + a.amount && !Alike(a, b)
  {
    hide RequestRow;
  }

  // ---------- any order, with drops ----------

  function Total(reqs: seq<ConsumeRequest>, weight: ConsumeRequest -> int): int {
    if reqs == [] then 0 else weight(reqs[0]) + Total(reqs[1..], weight)
  }

  function AmountOn(row: string): ConsumeRequest -> int {
    (r: ConsumeRequest) => if RequestRow(r) == row then r.amount else 0
  }

  function Uses(key: string): ConsumeRequest -> int {
    (r: ConsumeRequest) => if r.key == key && r.amount > 0 then 1 else 0
  }

  lemma {:induction false} TotalAppend(a: seq<ConsumeRequest>, b: seq<ConsumeRequest>, w: ConsumeRequest -> int)
    ensures Total(a + b, w) == Total(a, w) + Total(b, w)
  {
    if a == [] {
      assert a + b == b;
    } else {
      assert (a + b)[1..] == a[1..] + b;
      TotalAppend(a[1..], b, w);
    }
  }

  lemma TotalOne(r: ConsumeRequest, w: ConsumeRequest -> int)
    ensures Total([r], w) == w(r)
  {
  }

  lemma TotalWithout(a: seq<ConsumeRequest>, i: nat, w: ConsumeRequest -> int)
    requires i < |a|
    ensures Total(a, w) == w(a[i]) + Total(Without(a, i), w)
  {
    assert a == a[..i] + a[i..] && a[i..] == [a[i]] + a[i + 1..];
    TotalAppend(a[..i], a[i..], w);
    TotalAppend(a[..i], a[i + 1..], w);
  }

  lemma {:induction false} TotalNonNegative(a: seq<ConsumeRequest>, w: ConsumeRequest -> int)
    requires forall r :: r in a ==> w(r) >= 0
    ensures Total(a, w) >= 0
    ensures forall r :: r in a ==> w(r) <= Total(a, w)
  {
    if a != [] {
      TotalNonNegative(a[1..], w);
    }
  }

  /** What has been accepted and may still reach the cold store. */
  function Pending(t: Tiers, w: ConsumeRequest -> int): int {
    Total(t.queue, w) + Total(t.inflight, w)
  }

  predicate IsPending(t: Tiers, r: ConsumeRequest) {
    r in t.queue || r in t.inflight
  }

  /** A request of the considered runs: its row's limit, and a key that was never charged. */
  predicate Plain(t: Tiers, r: ConsumeRequest, limits: string -> int) {
    r.limit == limits(RequestRow(r)) && (r.amount > 0 && r.key != "" ==> r.key !in t.hot.consumptions)
  }

  predicate PlainRun(t: Tiers, acts: seq<Action>, capacity: nat, limits: string -> int)
    decreases |acts|
  {
    acts == []
    || (&& Enabled(t, acts[0], capacity)
        && (acts[0].Accept? ==> Plain(t, acts[0].req, limits))
        && PlainRun(Next(t, acts[0], capacity), acts[1..], capacity, limits))
  }

  /** Hot holds what cold holds, plus what is pending, plus what was dropped. */
  ghost predicate RowsAddUp(t: Tiers) {
    forall row ::
      UsedOf(t.hot, row) == UsedOf(t.cold, row) + Pending(t, AmountOn(row)) + Total(t.dropped, AmountOn(row))
  }

  /** Pending requests carry their row's limit, and hot is within it. */
  ghost predicate PendingFits(t: Tiers, limits: string -> int) {
    && (forall r | IsPending(t, r) || r in t.dropped :: r.amount >= 0)
    && (forall r | IsPending(t, r) && r.amount > 0 ::
          r.limit == limits(RequestRow(r)) && Fits(r.limit, UsedOf(t.hot, RequestRow(r))))
  }

  /** A key is pending at most once, and not at all once cold has charged it or before hot has. */
  ghost predicate KeysFresh(t: Tiers) {
    forall k | k != "" ::
      && Pending(t, Uses(k)) <= (if k in t.cold.consumptions then 0 else 1)
      && (k !in t.hot.consumptions ==> Pending(t, Uses(k)) == 0 && k !in t.cold.consumptions)
  }

  /** The books balance. */
  ghost predicate Balanced(t: Tiers, limits: string -> int) {
    RowsAddUp(t) && PendingFits(t, limits) && KeysFresh(t)
  }

  /** The cold store accepts the next job, whatever order the jobs arrived in. */
  lemma ColdAccepts(t: Tiers, limits: string -> int)
    requires Balanced(t, limits) && t.queue != []
    ensures Consume(t.cold, t.queue[0]).1.err == NoError
    ensures t.queue[0].amount > 0 && t.queue[0].key != "" ==> t.queue[0].key !in t.cold.consumptions
    ensures UsedOf(t.cold, RequestRow(t.queue[0])) + t.queue[0].amount <= UsedOf(t.hot, RequestRow(t.queue[0]))
  {
    hide RequestRow;
    var r := t.queue[0];
    var row := RequestRow(r);
    assert IsPending(t, r);
    assert r.amount >= 0;
    TotalNonNegative(t.queue, Uses(r.key));
    TotalNonNegative(t.inflight, Uses(r.key));
    assert r.amount > 0 && r.key != "" ==> Pending(t, Uses(r.key)) >= 1;
    forall q | q in t.queue || q in t.inflight || q in t.dropped ensures AmountOn(row)(q) >= 0 {
      assert IsPending(t, q) || q in t.dropped;
    }
    TotalNonNegative(t.queue, AmountOn(row));
    TotalNonNegative(t.inflight, AmountOn(row));
    TotalNonNegative(t.dropped, AmountOn(row));
    assert AmountOn(row)(r) == r.amount;
  }

  /** What the worker's turn moves, weight by weight. */
  lemma WorkMoves(t: Tiers, capacity: nat, limits: string -> int)
    requires Balanced(t, limits) && t.queue != []
    ensures var u := Next(t, Work, capacity); var r := t.queue[0];
            && u.hot == t.hot && u.dropped == t.dropped && u.inflight == t.inflight && u.queue == t.queue[1..]
            && (forall w :: Pending(t, w) == w(r) + Pending(u, w))
            && (forall row :: UsedOf(u.cold, row) == UsedOf(t.cold, row) + AmountOn(row)(r))
            && (forall k :: k != "" ==> (k in u.cold.consumptions <==> k in t.cold.consumptions || Uses(k)(r) == 1))
  {
    ColdAccepts(t, limits);
    hide RequestRow, Balanced;
  }

  lemma WorkBalanced(t: Tiers, capacity: nat, limits: string -> int)
    requires Balanced(t, limits) && t.queue != []
    ensures Balanced(Next(t, Work, capacity), limits)
  {
    WorkMoves(t, capacity, limits);
    var u := Next(t, Work, capacity);
    assert PendingFits(u, limits) by {
      hide RequestRow, Next, UsedOf, Fits;
      assert forall q :: IsPending(u, q) ==> IsPending(t, q);
    }
    hide PendingFits, Next, Total, Pending, AmountOn, Uses, UsedOf;
    WorkKeepsKeys(t, u);
  }

  lemma WorkKeepsKeys(t: Tiers, u: Tiers)
    requires KeysFresh(t) && t.queue != [] && u.hot == t.hot
    requires forall k :: Pending(t, Uses(k)) == Uses(k)(t.queue[0]) + Pending(u, Uses(k))
    requires forall k :: k != "" ==>
               (k in u.cold.consumptions <==> k in t.cold.consumptions || Uses(k)(t.queue[0]) == 1)
    ensures KeysFresh(u)
  {
    var r := t.queue[0];
    assert forall k :: 0 <= Uses(k)(r) <= 1;
    hide Pending, Uses;
    forall k | k != ""
      ensures Pending(u, Uses(k)) <= (if k in u.cold.consumptions then 0 else 1)
      ensures k !in u.hot.consumptions ==> Pending(u, Uses(k)) == 0 && k !in u.cold.consumptions
    {
      PendingNonNegative(u, k);
      assert Pending(t, Uses(k)) == Uses(k)(r) + Pending(u, Uses(k));
    }
  }

  lemma PendingNonNegative(t: Tiers, k: string)
    ensures Pending(t, Uses(k)) >= 0
  {
    TotalNonNegative(t.queue, Uses(k));
    TotalNonNegative(t.inflight, Uses(k));
  }

  lemma AcceptBalanced(t: Tiers, req: ConsumeRequest, capacity: nat, limits: string -> int)
    requires Balanced(t, limits) && Plain(t, req, limits)
    ensures Balanced(Next(t, Accept(req), capacity), limits)
  {
    var u := Next(t, Accept(req), capacity);
    if Consume(t.hot, req).1.err == NoError {
      HotAccepts(t, req, limits);
      assert u == t.(hot := Consume(t.hot, req).0, inflight := t.inflight + [req]);
      forall w: ConsumeRequest -> int ensures Pending(u, w) == Pending(t, w) + w(req) {
        TotalAppend(t.inflight, [req], w);
        TotalOne(req, w);
      }
      hide Next, Consume, RequestRow, Pending, Total;
      AcceptKeepsFits(t, u, req, limits);
      assert forall k :: 0 <= Uses(k)(req) <= 1;
      hide PendingFits, UsedOf, AmountOn, Uses;
    } else {
      RefusedChangesNothing(t.hot, req);
      hide Balanced;
    }
  }

  lemma AcceptKeepsFits(t: Tiers, u: Tiers, req: ConsumeRequest, limits: string -> int)
    requires PendingFits(t, limits) && u == t.(hot := u.hot, inflight := t.inflight + [req])
    requires req.amount >= 0 && req.limit == limits(RequestRow(req))
    requires forall row :: UsedOf(u.hot, row) == UsedOf(t.hot, row) + AmountOn(row)(req)
    requires req.amount > 0 ==> Fits(req.limit, UsedOf(u.hot, RequestRow(req)))
    ensures PendingFits(u, limits)
  {
    hide RequestRow, UsedOf;
    assert forall q :: IsPending(u, q) ==> IsPending(t, q) || q == req;
  }

  lemma HotAccepts(t: Tiers, req: ConsumeRequest, limits: string -> int)
    requires Plain(t, req, limits) && Consume(t.hot, req).1.err == NoError
    ensures var hot := Consume(t.hot, req).0;
            && req.amount >= 0
            && (forall row :: UsedOf(hot, row) == UsedOf(t.hot, row) + AmountOn(row)(req))
            && (req.amount > 0 ==> Fits(req.limit, UsedOf(hot, RequestRow(req))))
            && (forall k | k != "" :: k in hot.consumptions <==> k in t.hot.consumptions || Uses(k)(req) == 1)
            && (forall k | k != "" && k in t.hot.consumptions :: Uses(k)(req) == 0)
  {
    hide RequestRow;
  }

  lemma HandOverBalanced(t: Tiers, a: Action, capacity: nat, limits: string -> int)
    requires Enabled(t, a, capacity) && (a.Enqueue? || a.Drop?) && Balanced(t, limits)
    ensures Balanced(Next(t, a, capacity), limits)
  {
    hide RequestRow, Consume, Total, AmountOn, UsedOf, Fits;
    var u := Next(t, a, capacity);
    var r := t.inflight[a.i];
    assert forall q :: q in Without(t.inflight, a.i) ==> q in t.inflight;
    assert IsPending(t, r);
    assert forall q :: IsPending(u, q) ==> IsPending(t, q);
    assert forall q :: q in u.dropped ==> q in t.dropped || IsPending(t, q);
    forall w: ConsumeRequest -> int
      ensures Pending(u, w) + Total(u.dropped, w) == Pending(t, w) + Total(t.dropped, w)
      ensures Pending(u, w) == if a.Enqueue? then Pending(t, w) else Pending(t, w) - w(r)
    {
      TotalWithout(t.inflight, a.i, w);
      TotalAppend(t.queue, [r], w);
      TotalAppend(t.dropped, [r], w);
      TotalOne(r, w);
    }
    forall k | k != ""
      ensures Pending(u, Uses(k)) <= (if k in u.cold.consumptions then 0 else 1)
      ensures k !in u.hot.consumptions ==> Pending(u, Uses(k)) == 0 && k !in u.cold.consumptions
    {
      assert Uses(k)(r) >= 0;
      TotalNonNegative(u.queue, Uses(k));
      TotalNonNegative(u.inflight, Uses(k));
      assert Pending(t, Uses(k)) <= (if k in t.cold.consumptions then 0 else 1);
    }
  }

  lemma StepBalanced(t: Tiers, a: Action, capacity: nat, limits: string -> int)
    requires Enabled(t, a, capacity) && Balanced(t, limits) && (a.Accept? ==> Plain(t, a.req, limits))
    ensures Balanced(Next(t, a, capacity), limits)
  {
    hide Balanced, Next, Plain;
    match a
    case Accept(req) => AcceptBalanced(t, req, capacity, limits);
    case Enqueue(i) => HandOverBalanced(t, a, capacity, limits);
    case Drop(i) => HandOverBalanced(t, a, capacity, limits);
    case Work => WorkBalanced(t, capacity, limits);
  }

  /** Order-insensitivity and drop accounting: in every interleaving of accepted consumptions that
      repeat no key and agree on each row's limit, the books stay balanced. */
  lemma {:induction false} RunBalanced(t: Tiers, acts: seq<Action>, capacity: nat, limits: string -> int, end: Tiers)
    requires Balanced(t, limits) && PlainRun(t, acts, capacity, limits) && Runs(t, acts, capacity, end)
    ensures Balanced(end, limits)
    decreases |acts|
  {
    if acts != [] {
      hide Balanced, Next, Plain, Enabled;
      StepBalanced(t, acts[0], capacity, limits);
      RunBalanced(Next(t, acts[0], capacity), acts[1..], capacity, limits, end);
    }
  }

  lemma {:induction false} HotWithinLimit(t: Tiers, acts: seq<Action>, capacity: nat, limits: string -> int,
                                          end: Tiers, row: string)
    requires PlainRun(t, acts, capacity, limits) && Runs(t, acts, capacity, end)
    requires Fits(limits(row), UsedOf(t.hot, row))
    ensures Fits(limits(row), UsedOf(end.hot, row))
    decreases |acts|
  {
    if acts != [] {
      hide RequestRow;
      if acts[0].Accept? {
        HotStaysWithin(t, acts[0].req, limits, row);
      }
      hide Consume, Plain;
      HotWithinLimit(Next(t, acts[0], capacity), acts[1..], capacity, limits, end, row);
    }
  }

  lemma HotStaysWithin(t: Tiers, req: ConsumeRequest, limits: string -> int, row: string)
    requires Plain(t, req, limits) && Fits(limits(row), UsedOf(t.hot, row))
    ensures Fits(limits(row), UsedOf(Consume(t.hot, req).0, row))
  {
    hide RequestRow;
  }

  /** What balanced books say about one row. */
  lemma GapOf(t: Tiers, limits: string -> int, row: string)
    requires Balanced(t, limits)
    ensures UsedOf(t.cold, row) <= UsedOf(t.hot, row)
    ensures t.queue == [] && t.inflight == [] ==>
              UsedOf(t.hot, row) - UsedOf(t.cold, row) == Total(t.dropped, AmountOn(row))
  {
    hide RequestRow;
    assert UsedOf(t.hot, row) == UsedOf(t.cold, row) + Pending(t, AmountOn(row)) + Total(t.dropped, AmountOn(row));
    forall q | q in t.queue || q in t.inflight || q in t.dropped ensures AmountOn(row)(q) >= 0 {
      assert IsPending(t, q) || q in t.dropped;
    }
    TotalNonNegative(t.queue, AmountOn(row));
    TotalNonNegative(t.inflight, AmountOn(row));
    TotalNonNegative(t.dropped, AmountOn(row));
  }

  lemma StartBalanced(s: State, limits: string -> int)
    ensures Balanced(Tiers(s, s, [], [], []), limits)
  {
    hide RequestRow;
  }

  /** From equal ledgers, however jobs were reordered or dropped: once the queue is worked off, a row
      of the cold ledger is short by exactly the dropped amounts, and the worker never meets an error. */
  lemma DrainedGap(s: State, acts: seq<Action>, capacity: nat, limits: string -> int, end: Tiers, row: string)
    requires PlainRun(Tiers(s, s, [], [], []), acts, capacity, limits)
    requires Runs(Tiers(s, s, [], [], []), acts, capacity, end)
    ensures end.queue != [] ==> Consume(end.cold, end.queue[0]).1.err == NoError
    ensures UsedOf(end.cold, row) <= UsedOf(end.hot, row)
    ensures Fits(limits(row), UsedOf(s, row)) ==> Fits(limits(row), UsedOf(end.hot, row))
    ensures end.queue == [] && end.inflight == [] ==>
              UsedOf(end.hot, row) - UsedOf(end.cold, row) == Total(end.dropped, AmountOn(row))
  {
    hide *;
    var t := Tiers(s, s, [], [], []);
    StartBalanced(s, limits);
    RunBalanced(t, acts, capacity, limits, end);
    GapOf(end, limits, row);
    if Fits(limits(row), UsedOf(s, row)) {
      HotWithinLimit(t, acts, capacity, limits, end, row);
    }
    if end.queue != [] {
      ColdAccepts(end, limits);
    }
  }
}
