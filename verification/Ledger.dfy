/**
 The quota ledger as a value: what `storage/memory/memory.go` keeps, what each of its operations
 does to it, and what holds over whole runs of operations.  Timestamps of rows and records are not
 part of the ledger.
 */
module Ledger {
  import opened Calendar

  /** A string in the program; `Unknown` is one with no meaning. */
  datatype PeriodType = Daily | Monthly | Forever | Auto | Unknown(name: string)

  datatype Period = Period(start: int, end: int, kind: PeriodType) {
    /** Daily and monthly periods are both keyed by the day they start on. */
    function Key(): string {
      if kind == Forever then "forever" else DayText(DayOf(start))
    }
  }

  datatype Error =
    | NoError
    | ErrQuotaExceeded
    | ErrInvalidAmount
    | ErrInvalidPeriod
    | ErrInvalidEntitlement
    | ErrEntitlementNotFound
    | ErrIdempotencyKeyExists
    | ErrRateLimitExceeded

  datatype Option<T> = None | Some(value: T)

  /** Go's `(int, error)`: the number is meaningful next to some errors too. */
  datatype Reply = Reply(used: int, err: Error)

  datatype Usage = Usage(userID: string, resource: string, used: int, limit: int, period: Period, tier: string)

  datatype Entitlement = Entitlement(userID: string, tier: string, start: int, expiresAt: Option<int>, updatedAt: int)

  datatype ConsumeRequest = ConsumeRequest(
    userID: string, resource: string, amount: int, tier: string, period: Period, limit: int, key: string)

  datatype RefundRequest = RefundRequest(
    userID: string, resource: string, amount: int, kind: PeriodType, period: Period, key: string)

  datatype TierChangeRequest = TierChangeRequest(
    userID: string, resource: string, newTier: string, period: Period, newLimit: int, currentUsed: int)

  datatype ConsumptionRecord = ConsumptionRecord(
    userID: string, resource: string, amount: int, period: Period, newUsed: int)

  datatype RefundRecord = RefundRecord(userID: string, resource: string, amount: int, period: Period)

  datatype State = State(
    entitlements: map<string, Entitlement>,
    usage: map<string, Usage>,
    consumptions: map<string, ConsumptionRecord>,
    refunds: map<string, RefundRecord>,
    topUps: set<string>)

  const EMPTY := State(map[], map[], map[], map[], {})

  function RowKey(userID: string, resource: string, period: Period): string {
    userID + ":" + resource + ":" + period.Key()
  }

  function RequestRow(r: ConsumeRequest): string {
    RowKey(r.userID, r.resource, r.period)
  }

  function UsedOf(s: State, row: string): int {
    if row in s.usage then s.usage[row].used else 0
  }

  predicate Fits(limit: int, used: int) {
    limit == -1 || used <= limit
  }

  function Consume(s: State, r: ConsumeRequest): (State, Reply) {
    if r.amount < 0 then (s, Reply(0, ErrInvalidAmount))
    else if r.amount == 0 then (s, Reply(0, NoError))
    else if r.key != "" && r.key in s.consumptions then (s, Reply(s.consumptions[r.key].newUsed, NoError))
    else
      var row := RequestRow(r);
      var newUsed := UsedOf(s, row) + r.amount;
      if !Fits(r.limit, newUsed) then (s, Reply(UsedOf(s, row), ErrQuotaExceeded))
      else
        var usage := s.usage[row := Usage(r.userID, r.resource, newUsed, r.limit, r.period, r.tier)];
        var record := ConsumptionRecord(r.userID, r.resource, r.amount, r.period, newUsed);
        (s.(usage := usage,
            consumptions := if r.key == "" then s.consumptions else s.consumptions[r.key := record]),
         Reply(newUsed, NoError))
  }

  /** The period a refund names, or the calendar month or day at `now` when it names none. */
  function RefundPeriod(r: RefundRequest, now: int): Option<Period> {
    if r.period.start != 0 then Some(r.period)
    else
      var c := CivilOf(DayOf(now));
      match r.kind
      case Monthly => Some(Period(Date(c.year, c.month, 1, 0), Date(c.year, c.month + 1, 1, 0), Monthly))
      case Daily =>
        var start := Date(c.year, c.month, c.day, 0);
        Some(Period(start, start + TICKS_PER_DAY, Daily))
      case _ => None
  }

  function Refund(s: State, r: RefundRequest, now: int): (State, Error) {
    if r.amount < 0 then (s, ErrInvalidAmount)
    else if r.amount == 0 then (s, NoError)
    else if r.key != "" && r.key in s.refunds then (s, NoError)
    else
      match RefundPeriod(r, now)
      case None => (s, ErrInvalidPeriod)
      case Some(period) =>
        var row := RowKey(r.userID, r.resource, period);
        if row !in s.usage then (s, NoError)
        else
          var newUsed := if s.usage[row].used < r.amount then 0 else s.usage[row].used - r.amount;
          var record := RefundRecord(r.userID, r.resource, r.amount, period);
          (s.(usage := s.usage[row := s.usage[row].(used := newUsed)],
              refunds := if r.key == "" then s.refunds else s.refunds[r.key := record]),
           NoError)
  }

  function AddLimit(s: State, userID: string, resource: string, amount: int, period: Period, key: string)
    : (State, Error)
  {
    if key != "" && key in s.topUps then (s, ErrIdempotencyKeyExists)
    else
      var row := RowKey(userID, resource, period);
      var u := if row in s.usage then s.usage[row].(limit := s.usage[row].limit + amount)
               else Usage(userID, resource, 0, amount, period, "default");
      (s.(usage := s.usage[row := u], topUps := if key == "" then s.topUps else s.topUps + {key}), NoError)
  }

  function SubtractLimit(s: State, userID: string, resource: string, amount: int, period: Period, key: string)
    : (State, Error)
  {
    if key != "" && key in s.refunds then (s, ErrIdempotencyKeyExists)
    else
      var row := RowKey(userID, resource, period);
      var record := RefundRecord(userID, resource, amount, period);
      var t := s.(refunds := if key == "" then s.refunds else s.refunds[key := record]);
      if row !in t.usage then (t, NoError)
      else
        var newLimit := if t.usage[row].limit - amount < 0 then 0 else t.usage[row].limit - amount;
        (t.(usage := t.usage[row := t.usage[row].(limit := newLimit)]), NoError)
  }

  function ApplyTierChange(s: State, r: TierChangeRequest): State {
    var row := RowKey(r.userID, r.resource, r.period);
    var u := if row in s.usage then s.usage[row].(limit := r.newLimit, tier := r.newTier)
             else Usage(r.userID, r.resource, r.currentUsed, r.newLimit, r.period, r.newTier);
    s.(usage := s.usage[row := u])
  }

  function SetUsage(s: State, userID: string, resource: string, u: Usage, period: Period): State {
    s.(usage := s.usage[RowKey(userID, resource, period) := u])
  }

  function SetEntitlement(s: State, e: Entitlement): (State, Error) {
    if e.userID == "" then (s, ErrInvalidEntitlement)
    else (s.(entitlements := s.entitlements[e.userID := e]), NoError)
  }

  // ---------- single calls ----------

  /** What one consumption does, without its code: which calls change nothing, who is admitted, what is
      returned, what moves. */
  lemma ConsumeMeaning(s: State, r: ConsumeRequest)
    ensures var (t, reply) := Consume(s, r); var row := RequestRow(r);
            && (r.amount < 0 ==> (t, reply) == (s, Reply(0, ErrInvalidAmount)))
            && (r.amount == 0 ==> (t, reply) == (s, Reply(0, NoError)))
            && (r.amount > 0 && r.key != "" && r.key in s.consumptions ==>
                  (t, reply) == (s, Reply(s.consumptions[r.key].newUsed, NoError)))
            && (r.amount > 0 && (r.key == "" || r.key !in s.consumptions) ==>
                  && (reply.err == NoError <==> r.limit == -1 || UsedOf(s, row) + r.amount <= r.limit)
                  && (reply.err != NoError ==> t == s && reply == Reply(UsedOf(s, row), ErrQuotaExceeded))
                  && (reply.err == NoError ==> Charged(s, r, t, reply.used)))
  {
  }

  /** The request has been charged: its row and, under a key, its record are as requested, and all else stays. */
  predicate Charged(s: State, r: ConsumeRequest, t: State, used: int) {
    var row := RequestRow(r);
    && used == UsedOf(s, row) + r.amount
    && row in t.usage && t.usage[row] == Usage(r.userID, r.resource, used, r.limit, r.period, r.tier)
    && t.usage - {row} == s.usage - {row}
    && t.consumptions.Keys == s.consumptions.Keys + (if r.key == "" then {} else {r.key})
    && (r.key != "" ==> t.consumptions[r.key] == ConsumptionRecord(r.userID, r.resource, r.amount, r.period, used))
    && (forall k :: k in s.consumptions && k != r.key ==> t.consumptions[k] == s.consumptions[k])
    && t.refunds == s.refunds && t.topUps == s.topUps && t.entitlements == s.entitlements
  }

  /** The refunds that change nothing, and how they are answered; and the limit changes that do not. */
  lemma EarlyAnswers(s: State, r: RefundRequest, now: int)
    ensures var answer := Refund(s, r, now);
            && (r.amount < 0 ==> answer == (s, ErrInvalidAmount))
            && (r.amount == 0 ==> answer == (s, NoError))
            && (r.amount > 0 && r.key != "" && r.key in s.refunds ==> answer == (s, NoError))
            && (r.amount > 0 && (r.key == "" || r.key !in s.refunds) && RefundPeriod(r, now) == None ==>
                  answer == (s, ErrInvalidPeriod))
  {
    hide RefundPeriod, RowKey;
  }

  lemma LimitAnswers(s: State, userID: string, resource: string, amount: int, p: Period, key: string)
    ensures AddLimit(s, userID, resource, amount, p, key).1
            == if key != "" && key in s.topUps then ErrIdempotencyKeyExists else NoError
    ensures SubtractLimit(s, userID, resource, amount, p, key).1
            == if key != "" && key in s.refunds then ErrIdempotencyKeyExists else NoError
    ensures AddLimit(s, userID, resource, amount, p, key).1 != NoError ==>
              AddLimit(s, userID, resource, amount, p, key).0 == s
    ensures SubtractLimit(s, userID, resource, amount, p, key).1 != NoError ==>
              SubtractLimit(s, userID, resource, amount, p, key).0 == s
  {
    hide RowKey;
  }

  /** What one refund does: it takes as much of its amount as was used from its row, and records its key; without
      a row it does nothing at all. */
  lemma RefundMeaning(s: State, r: RefundRequest, now: int, row: string)
    requires r.amount > 0 && (r.key == "" || r.key !in s.refunds)
    requires RefundPeriod(r, now).Some? && row == RowKey(r.userID, r.resource, RefundPeriod(r, now).value)
    ensures var (t, err) := Refund(s, r, now);
            && err == NoError && t.usage - {row} == s.usage - {row}
            && t.entitlements == s.entitlements && t.consumptions == s.consumptions && t.topUps == s.topUps
            && (row !in s.usage ==> t == s)
            && (row in s.usage ==>
                  && row in t.usage && t.usage[row].(used := s.usage[row].used) == s.usage[row]
                  && t.usage[row].used == (if r.amount <= s.usage[row].used then s.usage[row].used - r.amount else 0)
                  && t.refunds.Keys == s.refunds.Keys + (if r.key == "" then {} else {r.key})
                  && (r.key != "" ==> t.refunds[r.key].amount == r.amount && t.refunds[r.key].userID == r.userID)
                  && forall k :: k in s.refunds && k != r.key ==> t.refunds[k] == s.refunds[k])
  {
    hide RowKey, RefundPeriod;
  }

  /** A refund that names no period is for the calendar month or day that holds the time of the call. */
  lemma FallbackPeriod(r: RefundRequest, now: int)
    requires r.period.start == 0
    ensures var p := RefundPeriod(r, now);
            && (p.Some? <==> r.kind == Monthly || r.kind == Daily)
            && (p.Some? ==>
                  && p.value.kind == r.kind && p.value.start <= now < p.value.end && ClockOf(p.value.start) == 0)
            && (r.kind == Daily ==> p.value.end == p.value.start + TICKS_PER_DAY)
            && (r.kind == Monthly ==>
                  && CivilOf(DayOf(p.value.start)).day == 1 && CivilOf(DayOf(p.value.end)).day == 1
                  && DayOf(p.value.end) - DayOf(p.value.start)
                     == MonthDays(CivilOf(DayOf(now)).year, CivilOf(DayOf(now)).month))
  {
    hide CivilOf, DateDays, MonthDays;
    DateOfCivil(DayOf(now));
    MonthAround(DayOf(now));
  }

  // ---------- rows share a key ----------

  /** Cutting a row key at its last colon. */
  lemma RowKeyParts(u: string, r: string, p: Period, v: string, q: string, w: Period)
    requires RowKey(u, r, p) == RowKey(v, q, w)
    ensures p.Key() == w.Key() && u + ":" + r == v + ":" + q
  {
    var a, b := u + ":" + r, v + ":" + q;
    var m, n := p.Key(), w.Key();
    KeyHasNoColon(p);
    KeyHasNoColon(w);
    LastColon(a, m);
    LastColon(b, n);
    assert RowKey(u, r, p) == a + ":" + m && RowKey(v, q, w) == b + ":" + n;
    SplitAtEnd(a + ":", m, b + ":", n);
    SplitAtEnd(a, ":", b, ":");
  }

  lemma LastColon(a: string, m: string)
    requires forall i :: 0 <= i < |m| ==> m[i] != ':'
    ensures var z := a + ":" + m;
            z[|z| - |m| - 1] == ':' && forall i :: |z| - |m| <= i < |z| ==> z[i] != ':'
  {
  }

  lemma KeyHasNoColon(p: Period)
    ensures forall i :: 0 <= i < |p.Key()| ==> p.Key()[i] != ':'
  {
    DayTextShape(DayOf(p.start));
  }

  /** Two periods of one user and resource share a row exactly when both never end, or neither does
      and they start on the same day: a daily and a monthly period do on a day a cycle starts. */
  lemma SharedRow(u: string, r: string, p: Period, w: Period)
    ensures RowKey(u, r, p) == RowKey(u, r, w)
            <==> (if p.kind == Forever || w.kind == Forever then p.kind == w.kind else DayOf(p.start) == DayOf(w.start))
  {
    DayTextShape(DayOf(p.start));
    DayTextShape(DayOf(w.start));
    DayTextInjective(DayOf(p.start), DayOf(w.start));
    if RowKey(u, r, p) == RowKey(u, r, w) {
      RowKeyParts(u, r, p, u, r, w);
    }
    assert "forever"[6] == 'r';
  }

  // ---------- runs ----------

  datatype Op = ConsumeOp(c: ConsumeRequest) | RefundOp(r: RefundRequest, now: int)

  function Step(s: State, op: Op): State {
    match op
    case ConsumeOp(c) => Consume(s, c).0
    case RefundOp(r, now) => Refund(s, r, now).0
  }

  function Run(s: State, ops: seq<Op>): State
    decreases |ops|
  {
    if ops == [] then s else Run(Step(s, ops[0]), ops[1..])
  }

  predicate ReplayOf(s: State, op: Op) {
    match op
    case ConsumeOp(c) => c.key != "" && c.key in s.consumptions
    case RefundOp(r, now) => r.key != "" && r.key in s.refunds
  }

  /** What an operation charges to `row`: its amount, if it is no replay and the row has room. */
  function Charge(s: State, op: Op, row: string): int {
    if op.ConsumeOp? && RequestRow(op.c) == row && op.c.amount > 0 && !ReplayOf(s, op)
       && Fits(op.c.limit, UsedOf(s, row) + op.c.amount)
    then op.c.amount else 0
  }

  /** What an operation gives back to `row`: as much of its amount as was used. */
  function GivenBack(s: State, op: Op, row: string): int {
    if op.RefundOp? && op.r.amount > 0 && !ReplayOf(s, op) && row in s.usage
       && RefundPeriod(op.r, op.now).Some?
       && RowKey(op.r.userID, op.r.resource, RefundPeriod(op.r, op.now).value) == row
    then (if op.r.amount <= UsedOf(s, row) then op.r.amount else UsedOf(s, row)) else 0
  }

  function TotalCharges(s: State, ops: seq<Op>, row: string): int
    decreases |ops|
  {
    if ops == [] then 0 else Charge(s, ops[0], row) + TotalCharges(Step(s, ops[0]), ops[1..], row)
  }

  function TotalGivenBack(s: State, ops: seq<Op>, row: string): int
    decreases |ops|
  {
    if ops == [] then 0 else GivenBack(s, ops[0], row) + TotalGivenBack(Step(s, ops[0]), ops[1..], row)
  }

  predicate Sound(s: State) {
    forall row :: row in s.usage ==> 0 <= s.usage[row].used && Fits(s.usage[row].limit, s.usage[row].used)
  }

  /** Conservation: over any run, a row's used amount is what was charged less what was given back;
      it stays non-negative, and at or below the limit stored with it unless that is -1. */
  lemma {:induction false} Conservation(s: State, ops: seq<Op>, row: string)
    requires Sound(s)
    ensures UsedOf(Run(s, ops), row) == UsedOf(s, row) + TotalCharges(s, ops, row) - TotalGivenBack(s, ops, row)
    ensures Sound(Run(s, ops))
    decreases |ops|
  {
    hide Step, Charge, GivenBack, Sound;
    if ops != [] {
      StepConserves(s, ops[0], row);
      Conservation(Step(s, ops[0]), ops[1..], row);
    }
  }

  lemma StepConserves(s: State, op: Op, row: string)
    requires Sound(s)
    ensures UsedOf(Step(s, op), row) == UsedOf(s, row) + Charge(s, op, row) - GivenBack(s, op, row)
    ensures Sound(Step(s, op))
  {
    hide RowKey, RefundPeriod;
    match op
    case ConsumeOp(c) =>
    case RefundOp(r, now) =>
  }

  predicate Names(op: Op, isRefund: bool, key: string) {
    op.RefundOp? == isRefund && (if isRefund then op.r.key else op.c.key) == key
  }

  /** The number of operations of a run, among those named by `key`, that change the ledger. */
  function Effects(s: State, ops: seq<Op>, isRefund: bool, key: string): nat
    decreases |ops|
  {
    hide Step;
    if ops == [] then 0
    else (if Names(ops[0], isRefund, key) && Step(s, ops[0]) != s then 1 else 0)
         + Effects(Step(s, ops[0]), ops[1..], isRefund, key)
  }

  predicate Known(s: State, isRefund: bool, key: string) {
    if isRefund then key in s.refunds else key in s.consumptions
  }

  /** Exactly once: in any run an idempotency key takes effect at most once, and not at all when it is
      already recorded; from then on every use of it changes nothing. */
  lemma {:induction false} ExactlyOnce(s: State, ops: seq<Op>, isRefund: bool, key: string)
    requires key != ""
    ensures Effects(s, ops, isRefund, key) <= if Known(s, isRefund, key) then 0 else 1
    ensures Effects(s, ops, isRefund, key) == 1 ==> Known(Run(s, ops), isRefund, key)
    decreases |ops|
  {
    hide Step;
    if ops != [] {
      var t := Step(s, ops[0]);
      RecordsKept(s, ops[0]);
      ExactlyOnce(t, ops[1..], isRefund, key);
      if Known(t, isRefund, key) {
        RunKeepsRecords(t, ops[1..]);
      }
    }
  }

  lemma RecordsKept(s: State, op: Op)
    ensures forall k :: k in s.consumptions ==>
              k in Step(s, op).consumptions && (k != "" ==> Step(s, op).consumptions[k] == s.consumptions[k])
    ensures forall k :: k in s.refunds ==> k in Step(s, op).refunds
    ensures forall key :: key != "" && Names(op, op.RefundOp?, key) && Step(s, op) != s
              ==> !Known(s, op.RefundOp?, key) && Known(Step(s, op), op.RefundOp?, key)
  {
    hide RowKey, RefundPeriod;
  }

  lemma {:induction false} RunKeepsRecords(s: State, ops: seq<Op>)
    ensures forall k :: k in s.consumptions ==>
              k in Run(s, ops).consumptions && (k != "" ==> Run(s, ops).consumptions[k] == s.consumptions[k])
    ensures forall k :: k in s.refunds ==> k in Run(s, ops).refunds
    decreases |ops|
  {
    hide Step;
    if ops != [] {
      RecordsKept(s, ops[0]);
      RunKeepsRecords(Step(s, ops[0]), ops[1..]);
    }
  }

  /** A consumption that was charged under a key answers every later use of that key, whatever else
      happened in between and whatever the later request asks for. */
  lemma ReplayReturnsFirstAnswer(s: State, first: ConsumeRequest, ops: seq<Op>, again: ConsumeRequest)
    requires first.key != "" && first.amount > 0 && Consume(s, first).1.err == NoError
    requires again.key == first.key && again.amount > 0
    ensures var t := Run(Consume(s, first).0, ops);
            Consume(t, again) == (t, Consume(s, first).1)
  {
    hide RequestRow, Fits;
    RunKeepsRecords(Consume(s, first).0, ops);
  }
}
