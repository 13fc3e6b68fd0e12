/**
 What the operations of `pkg/goquota/manager.go` do to the ledger, with no cache in between, and what
 holds over whole runs of them.  No fallback strategy is configured, and the ledger never fails.  The
 clock reading of a call, and the rate limiter's answer, are inputs.
 */
module ManagerSpec {
  import opened Calendar
  import opened Cycle
  import opened Ledger

  datatype TierConfig = TierConfig(
    monthly: map<string, int>, daily: map<string, int>, order: seq<PeriodType>, initialForever: map<string, int>)

  datatype Config = Config(tiers: map<string, TierConfig>, defaultTier: string)

  /** What `Config.Validate` has checked before a manager exists. */
  predicate ValidConfig(c: Config) {
    c.defaultTier in c.tiers && forall t :: t in c.tiers ==> ValidOrder(c.tiers[t].order)
  }

  predicate ValidOrder(order: seq<PeriodType>) {
    forall i :: 0 <= i < |order| ==> Consumable(order[i])
  }

  /** A period that a consumption can name directly. */
  predicate Consumable(kind: PeriodType) {
    kind == Monthly || kind == Daily || kind == Forever
  }

  function TierOf(c: Config, tier: string): Option<TierConfig> {
    if tier in c.tiers then Some(c.tiers[tier])
    else if c.defaultTier in c.tiers then Some(c.tiers[c.defaultTier])
    else None
  }

  function LimitFor(c: Config, resource: string, tier: string, kind: PeriodType): int {
    match TierOf(c, tier)
    case None => 0
    case Some(t) =>
      if kind == Monthly && resource in t.monthly then t.monthly[resource]
      else if kind == Daily && resource in t.daily then t.daily[resource]
      else 0
  }

  const DEFAULT_ORDER := [Monthly, Daily]

  function OrderFor(c: Config, tier: string): seq<PeriodType> {
    match TierOf(c, tier)
    case Some(t) => if t.order != [] then t.order else DEFAULT_ORDER
    case None => DEFAULT_ORDER
  }

  const FOREVER_END: int := DateDays(9999, 12, 31) * TICKS_PER_DAY + 86_399_000_000_000

  function EntitlementOf(s: State, userID: string): Option<Entitlement> {
    if userID in s.entitlements then Some(s.entitlements[userID]) else None
  }

  function TierFor(c: Config, ent: Option<Entitlement>): string {
    if ent.Some? then ent.value.tier else c.defaultTier
  }

  function ForeverPeriod(now: int): Period {
    Period(StartOfDay(now), FOREVER_END, Forever)
  }

  function PeriodFor(kind: PeriodType, ent: Option<Entitlement>, now: int): Option<Period> {
    match kind
    case Monthly =>
      var (start, end) := CycleOf(if ent.Some? then ent.value.start else StartOfDay(now), now);
      Some(Period(start, end, Monthly))
    case Daily => Some(Period(StartOfDay(now), StartOfDay(now) + TICKS_PER_DAY, Daily))
    case Forever => Some(ForeverPeriod(now))
    case _ => None
  }

  datatype Call = Call(userID: string, resource: string, amount: int, key: string, dryRun: bool)

  /** One attempt's clock reading and rate-limiter answer. */
  datatype Tick = Tick(now: int, admitted: bool)

  /** The limit handed to the storage; `None` when there is no quota to consume from. */
  function EnforcedLimit(c: Config, s: State, tier: string, resource: string, kind: PeriodType, row: string)
    : Option<int>
  {
    var limit := if kind != Forever then LimitFor(c, resource, tier, kind)
                 else if row in s.usage && s.usage[row].limit > 0 then s.usage[row].limit else 0;
    if limit != -1 && limit <= 0 then None else Some(limit)
  }

  function ConsumeDirect(c: Config, s: State, call: Call, kind: PeriodType, tick: Tick): (State, Reply) {
    if call.amount < 0 then (s, Reply(0, ErrInvalidAmount))
    else if call.amount == 0 then (s, Reply(0, NoError))
    else if call.key != "" && call.key in s.consumptions then (s, Reply(s.consumptions[call.key].newUsed, NoError))
    else
      var ent := EntitlementOf(s, call.userID);
      var tier := TierFor(c, ent);
      match PeriodFor(kind, ent, tick.now)
      case None => (s, Reply(0, ErrInvalidPeriod))
      case Some(period) =>
        var row := RowKey(call.userID, call.resource, period);
        if !tick.admitted then (s, Reply(0, ErrRateLimitExceeded))
        else
          match EnforcedLimit(c, s, tier, call.resource, kind, row)
          case None => (s, Reply(0, ErrQuotaExceeded))
          case Some(limit) =>
            if call.dryRun then (s, Reply(UsedOf(s, row) + call.amount, NoError))
            else
              var req := ConsumeRequest(call.userID, call.resource, call.amount, tier, period, limit, call.key);
              Ledger.Consume(s, req)
  }

  /** The cascade: the periods of `order` from the `i`-th on, until one does not report an exceeded quota. */
  function ConsumeCascade(c: Config, s: State, call: Call, order: seq<PeriodType>, i: nat, ticks: nat -> Tick)
    : (State, Reply)
    decreases |order| - i
  {
    if i >= |order| then (s, Reply(0, ErrQuotaExceeded))
    else
      var (t, reply) := ConsumeDirect(c, s, call, order[i], ticks(i));
      if reply.err == NoError then (t, reply)
      else if reply.err != ErrQuotaExceeded then (s, Reply(0, reply.err))
      else ConsumeCascade(c, s, call, order, i + 1, ticks)
  }

  function Consume(c: Config, s: State, call: Call, kind: PeriodType, ticks: nat -> Tick): (State, Reply) {
    if kind != Auto || call.amount <= 0 || (call.key != "" && call.key in s.consumptions)
    then ConsumeDirect(c, s, call, kind, ticks(0))
    else ConsumeCascade(c, s, call, OrderFor(c, TierFor(c, EntitlementOf(s, call.userID))), 0, ticks)
  }

  function Refund(c: Config, s: State, req: RefundRequest, now: int): (State, Error) {
    if req.amount < 0 then (s, ErrInvalidAmount)
    else if req.amount == 0 then (s, NoError)
    else if req.key != "" && req.key in s.refunds then (s, NoError)
    else
      match PeriodFor(req.kind, EntitlementOf(s, req.userID), now)
      case None => (s, ErrInvalidPeriod)
      case Some(period) => Ledger.Refund(s, req.(period := period), now)
  }

  function TopUpLimit(s: State, userID: string, resource: string, amount: int, key: string, now: int): (State, Error) {
    if amount <= 0 then (s, ErrInvalidAmount)
    else (AddLimit(s, userID, resource, amount, ForeverPeriod(now), key).0, NoError)
  }

  function RefundCredits(s: State, userID: string, resource: string, amount: int, key: string, now: int)
    : (State, Error)
  {
    if amount <= 0 then (s, ErrInvalidAmount)
    else (SubtractLimit(s, userID, resource, amount, ForeverPeriod(now), key).0, NoError)
  }

  function SetUsage(c: Config, s: State, userID: string, resource: string, kind: PeriodType, amount: int, now: int)
    : (State, Error)
  {
    if amount < 0 then (s, ErrInvalidAmount)
    else
      var ent := EntitlementOf(s, userID);
      match PeriodFor(kind, ent, now)
      case None => (s, ErrInvalidPeriod)
      case Some(period) =>
        var row := RowKey(userID, resource, period);
        var limit := if kind == Forever && row in s.usage && s.usage[row].limit > 0 then s.usage[row].limit
                     else LimitFor(c, resource, TierFor(c, ent), kind);
        var u := Usage(userID, resource, amount, limit, period, TierFor(c, ent));
        (Ledger.SetUsage(s, userID, resource, u, period), NoError)
  }

  function BonusKey(userID: string): string {
    "initial_bonus_" + userID
  }

  /** The initial credits of a tier, resource by resource in the order `walk` of the map iteration. */
  function GrantBonuses(s: State, userID: string, credits: map<string, int>, walk: seq<string>, now: int): State
    decreases |walk|
  {
    if walk == [] then s
    else
      var t := if walk[0] in credits && credits[walk[0]] > 0
               then TopUpLimit(s, userID, walk[0], credits[walk[0]], BonusKey(userID), now).0 else s;
      GrantBonuses(t, userID, credits, walk[1..], now)
  }

  function SetEntitlement(c: Config, s: State, ent: Entitlement, walk: seq<string>, now: int): (State, Error) {
    var (t, err) := Ledger.SetEntitlement(s, ent);
    if err != NoError then (s, err)
    else if ent.tier !in c.tiers then (t, NoError)
    else (GrantBonuses(t, ent.userID, c.tiers[ent.tier].initialForever, walk, now), NoError)
  }

  /** `share` is the new limit times the rest of the cycle, rounded. */
  function ApplyTierChange(s: State, userID: string, newTier: string, resource: string, share: int, now: int): State {
    match PeriodFor(Monthly, EntitlementOf(s, userID), now)
    case None => s
    case Some(period) =>
      var used := UsedOf(s, RowKey(userID, resource, period));
      var limit := if used + share < used then used else used + share;
      Ledger.ApplyTierChange(s, TierChangeRequest(userID, resource, newTier, period, limit, used))
  }

  function GetQuota(c: Config, s: State, userID: string, resource: string, kind: PeriodType, now: int)
    : (Option<Usage>, Error)
  {
    var ent := EntitlementOf(s, userID);
    var tier := TierFor(c, ent);
    match PeriodFor(kind, ent, now)
    case None => (None, ErrInvalidPeriod)
    case Some(period) =>
      var row := RowKey(userID, resource, period);
      var configured := LimitFor(c, resource, tier, kind);
      if row in s.usage then
        (Some(Patched(s.usage[row], configured)), NoError)
      else
        var limit := if kind == Forever && configured == 0 then InitialCredits(c, tier, resource) else configured;
        (Some(Usage(userID, resource, 0, limit, period, tier)), NoError)
  }

  /** A limit that is not positive is taken for missing, and the configured one told instead. */
  function Patched(u: Usage, configured: int): Usage {
    if u.limit <= 0 then u.(limit := configured) else u
  }

  /** The row a call is about. */
  function QuotaRow(s: State, userID: string, resource: string, kind: PeriodType, now: int): Option<string> {
    match PeriodFor(kind, EntitlementOf(s, userID), now)
    case None => None
    case Some(period) => Some(RowKey(userID, resource, period))
  }

  /** The stored limit needs no patching: there is no row, or its limit is positive. */
  predicate Settled(s: State, row: string) {
    row in s.usage ==> s.usage[row].limit > 0
  }

  function InitialCredits(c: Config, tier: string, resource: string): int {
    match TierOf(c, tier)
    case None => 0
    case Some(t) => if resource in t.initialForever then t.initialForever[resource] else 0
  }

  // ---------- consuming ----------

  /** A direct consumption either leaves the ledger as it was, or raises one row by the amount. */
  lemma DirectMeaning(c: Config, s: State, call: Call, kind: PeriodType, tick: Tick)
    ensures var (t, reply) := ConsumeDirect(c, s, call, kind, tick);
            && (reply.err != NoError ==> t == s)
            && (reply.err == NoError && !call.dryRun && call.amount > 0
                && (call.key == "" || call.key !in s.consumptions) ==>
                  && PeriodFor(kind, EntitlementOf(s, call.userID), tick.now).Some?
                  && var row := RowKey(call.userID, call.resource,
                                       PeriodFor(kind, EntitlementOf(s, call.userID), tick.now).value);
                     Raised(s, t, row, call.amount) && reply.used == UsedOf(t, row))
  {
    hide RowKey, PeriodFor, LimitFor;
  }

  predicate Raised(s: State, t: State, row: string, amount: int) {
    UsedOf(t, row) == UsedOf(s, row) + amount && t.usage - {row} == s.usage - {row} && row in t.usage
  }

  /** The first period of the order whose direct consumption succeeds, if no other error comes first. */
  predicate FirstToSucceed(c: Config, s: State, call: Call, order: seq<PeriodType>, k: nat, ticks: nat -> Tick) {
    && k < |order| && ConsumeDirect(c, s, call, order[k], ticks(k)).1.err == NoError
    && forall j: nat :: j < k ==> ConsumeDirect(c, s, call, order[j], ticks(j)).1.err == ErrQuotaExceeded
  }

  lemma {:induction false} CascadeFindsFirst(c: Config, s: State, call: Call, order: seq<PeriodType>, i: nat,
                                             ticks: nat -> Tick)
    requires i <= |order|
    requires forall j: nat :: j < i ==> ConsumeDirect(c, s, call, order[j], ticks(j)).1.err == ErrQuotaExceeded
    ensures var (t, reply) := ConsumeCascade(c, s, call, order, i, ticks);
            && (reply.err != NoError ==> t == s && forall k: nat :: !FirstToSucceed(c, s, call, order, k, ticks))
            && (reply.err == NoError ==> exists k: nat :: FirstToSucceed(c, s, call, order, k, ticks)
                                                         && (t, reply) == ConsumeDirect(c, s, call, order[k], ticks(k)))
    decreases |order| - i
  {
    hide ConsumeDirect;
    if i < |order| {
      if ConsumeDirect(c, s, call, order[i], ticks(i)).1.err == NoError {
        assert FirstToSucceed(c, s, call, order, i, ticks);
      } else if ConsumeDirect(c, s, call, order[i], ticks(i)).1.err == ErrQuotaExceeded {
        CascadeFindsFirst(c, s, call, order, i + 1, ticks);
      }
    }
  }

  /** The cascade charges once: on success exactly one row, that of the first period in the order whose
      direct consumption succeeds, rises by exactly the amount; on any error nothing changes. */
  lemma CascadeChargesOnce(c: Config, s: State, call: Call, ticks: nat -> Tick)
    requires ValidConfig(c) && call.amount > 0 && !call.dryRun && (call.key == "" || call.key !in s.consumptions)
    ensures var (t, reply) := Consume(c, s, call, Auto, ticks);
            var ent := EntitlementOf(s, call.userID); var order := OrderFor(c, TierFor(c, ent));
            && (reply.err != NoError ==> t == s && forall k: nat :: !FirstToSucceed(c, s, call, order, k, ticks))
            && (reply.err == NoError ==> exists k: nat ::
                  && FirstToSucceed(c, s, call, order, k, ticks) && PeriodFor(order[k], ent, ticks(k).now).Some?
                  && Raised(s, t, RowKey(call.userID, call.resource, PeriodFor(order[k], ent, ticks(k).now).value),
                            call.amount))
  {
    hide ConsumeDirect, PeriodFor, RowKey, Raised;
    var order := OrderFor(c, TierFor(c, EntitlementOf(s, call.userID)));
    CascadeFindsFirst(c, s, call, order, 0, ticks);
    var (t, reply) := ConsumeCascade(c, s, call, order, 0, ticks);
    if reply.err == NoError {
      var k: nat :| FirstToSucceed(c, s, call, order, k, ticks)
                    && (t, reply) == ConsumeDirect(c, s, call, order[k], ticks(k));
      DirectMeaning(c, s, call, order[k], ticks(k));
    }
  }

  // ---------- forever credits ----------

  datatype Op =
    | ConsumeOp(call: Call, kind: PeriodType, ticks: nat -> Tick)
    | RefundOp(req: RefundRequest, now: int)
    | TopUpOp(userID: string, resource: string, amount: int, key: string, now: int)
    | CreditsOp(userID: string, resource: string, amount: int, key: string, now: int)
    | SetUsageOp(userID: string, resource: string, kind: PeriodType, amount: int, now: int)
    | EntitleOp(ent: Entitlement, walk: seq<string>, now: int)
    | TierOp(userID: string, newTier: string, resource: string, share: int, now: int)
    | QuotaOp(userID: string, resource: string, kind: PeriodType, now: int)

  function Step(c: Config, s: State, op: Op): State {
    match op
    case ConsumeOp(call, kind, ticks) => Consume(c, s, call, kind, ticks).0
    case RefundOp(req, now) => Refund(c, s, req, now).0
    case TopUpOp(userID, resource, amount, key, now) => TopUpLimit(s, userID, resource, amount, key, now).0
    case CreditsOp(userID, resource, amount, key, now) => RefundCredits(s, userID, resource, amount, key, now).0
    case SetUsageOp(userID, resource, kind, amount, now) => SetUsage(c, s, userID, resource, kind, amount, now).0
    case EntitleOp(ent, walk, now) => SetEntitlement(c, s, ent, walk, now).0
    case TierOp(userID, newTier, resource, share, now) => ApplyTierChange(s, userID, newTier, resource, share, now)
    case QuotaOp(_, _, _, _) => s
  }

  function Run(c: Config, s: State, ops: seq<Op>): State
    decreases |ops|
  {
    if ops == [] then s else Run(c, Step(c, s, ops[0]), ops[1..])
  }

  /** An answer to a quota query, and whether its row is settled. */
  datatype Answer = Answer(quota: Option<Usage>, settled: bool)

  function AnswerTo(c: Config, s: State, op: Op): Answer
    requires op.QuotaOp?
  {
    var row := QuotaRow(s, op.userID, op.resource, op.kind, op.now);
    Answer(GetQuota(c, s, op.userID, op.resource, op.kind, op.now).0, row.Some? ==> Settled(s, row.value))
  }

  /** The answers to the quota queries of a run. */
  function Answers(c: Config, s: State, ops: seq<Op>): seq<Answer>
    decreases |ops|
  {
    if ops == [] then []
    else (if ops[0].QuotaOp? then [AnswerTo(c, s, ops[0])] else []) + Answers(c, Step(c, s, ops[0]), ops[1..])
  }

  /** The row of a user's pre-paid credits. */
  function CreditRow(userID: string, resource: string): string {
    userID + ":" + resource + ":forever"
  }

  function Credits(s: State, row: string): int {
    if row in s.usage then s.usage[row].limit else 0
  }

  function ToppedUp(s: State, userID: string, resource: string, amount: int, key: string, row: string): int {
    if amount > 0 && CreditRow(userID, resource) == row && (key == "" || key !in s.topUps) then amount else 0
  }

  /** The bonus an entitlement brings to `row`: of the first resource of the walk with one, and only if
      the user's bonus key is new. */
  function Bonus(s: State, userID: string, credits: map<string, int>, walk: seq<string>, row: string): int {
    if walk == [] then 0
    else if walk[0] in credits && credits[walk[0]] > 0
    then ToppedUp(s, userID, walk[0], credits[walk[0]], BonusKey(userID), row)
    else Bonus(s, userID, credits, walk[1..], row)
  }

  function Granted(c: Config, s: State, op: Op, row: string): int {
    match op
    case TopUpOp(userID, resource, amount, key, _) => ToppedUp(s, userID, resource, amount, key, row)
    case EntitleOp(ent, walk, _) =>
      if ent.userID == "" || ent.tier !in c.tiers then 0
      else Bonus(s, ent.userID, c.tiers[ent.tier].initialForever, walk, row)
    case _ => 0
  }

  function TakenBack(s: State, op: Op, row: string): int {
    if op.CreditsOp? && op.amount > 0 && CreditRow(op.userID, op.resource) == row
       && (op.key == "" || op.key !in s.refunds)
    then (if op.amount <= Credits(s, row) then op.amount else Credits(s, row)) else 0
  }

  function TotalGranted(c: Config, s: State, ops: seq<Op>, row: string): int
    decreases |ops|
  {
    if ops == [] then 0 else Granted(c, s, ops[0], row) + TotalGranted(c, Step(c, s, ops[0]), ops[1..], row)
  }

  function TotalTakenBack(c: Config, s: State, ops: seq<Op>, row: string): int
    decreases |ops|
  {
    if ops == [] then 0 else TakenBack(s, ops[0], row) + TotalTakenBack(c, Step(c, s, ops[0]), ops[1..], row)
  }

  lemma ForeverRow(userID: string, resource: string, now: int)
    ensures RowKey(userID, resource, ForeverPeriod(now)) == CreditRow(userID, resource)
  {
  }

  /** No daily or monthly row is a credit row. */
  lemma DatedRowsAreNot(u: string, r: string, p: Period, userID: string, resource: string)
    requires p.kind != Forever
    ensures RowKey(u, r, p) != CreditRow(userID, resource)
  {
    var f := Period(0, 0, Forever);
    assert RowKey(userID, resource, f) == CreditRow(userID, resource);
    DayTextShape(DayOf(p.start));
    assert p.Key() != f.Key() by {
      assert "forever"[6] == 'r';
    }
    if RowKey(u, r, p) == RowKey(userID, resource, f) {
      RowKeyParts(u, r, p, userID, resource, f);
    }
  }

  lemma PeriodKind(kind: PeriodType, ent: Option<Entitlement>, now: int)
    ensures var p := PeriodFor(kind, ent, now);
            && (p.Some? <==> Consumable(kind)) && (p.Some? ==> p.value.kind == kind)
  {
    hide CycleOf;
  }

  /** An operation that is about row `at` leaves the limit of the credit row `row` alone, unless `at` is
      the row and the operation writes back the positive limit it read. */
  lemma DirectKeepsCredits(c: Config, s: State, call: Call, kind: PeriodType, tick: Tick, userID: string,
                           resource: string)
    ensures var row := CreditRow(userID, resource);
            Credits(ConsumeDirect(c, s, call, kind, tick).0, row) == Credits(s, row)
  {
    var ent := EntitlementOf(s, call.userID);
    PeriodKind(kind, ent, tick.now);
    var p := PeriodFor(kind, ent, tick.now);
    if p.Some? && p.value.kind != Forever {
      DatedRowsAreNot(call.userID, call.resource, p.value, userID, resource);
    }
    hide PeriodFor, RowKey, CreditRow, LimitFor;
  }

  lemma {:induction false} CascadeKeepsCredits(c: Config, s: State, call: Call, order: seq<PeriodType>, i: nat,
                                               ticks: nat -> Tick, userID: string, resource: string)
    ensures var row := CreditRow(userID, resource);
            Credits(ConsumeCascade(c, s, call, order, i, ticks).0, row) == Credits(s, row)
    decreases |order| - i
  {
    hide ConsumeDirect, Credits, CreditRow;
    if i < |order| {
      DirectKeepsCredits(c, s, call, order[i], ticks(i), userID, resource);
      CascadeKeepsCredits(c, s, call, order, i + 1, ticks, userID, resource);
    }
  }

  lemma SetUsageKeepsCredits(c: Config, s: State, u: string, r: string, kind: PeriodType, amount: int, now: int,
                             userID: string, resource: string)
    requires 0 <= Credits(s, CreditRow(userID, resource))
    ensures var row := CreditRow(userID, resource);
            Credits(SetUsage(c, s, u, r, kind, amount, now).0, row) == Credits(s, row)
  {
    PeriodKind(kind, EntitlementOf(s, u), now);
    var p := PeriodFor(kind, EntitlementOf(s, u), now);
    if p.Some? && p.value.kind != Forever {
      DatedRowsAreNot(u, r, p.value, userID, resource);
    }
    hide PeriodFor, RowKey, CreditRow, TierOf;
  }

  lemma TierChangeKeepsCredits(s: State, u: string, newTier: string, r: string, share: int, now: int, userID: string,
                               resource: string)
    ensures var row := CreditRow(userID, resource);
            Credits(ApplyTierChange(s, u, newTier, r, share, now), row) == Credits(s, row)
  {
    PeriodKind(Monthly, EntitlementOf(s, u), now);
    var p := PeriodFor(Monthly, EntitlementOf(s, u), now);
    if p.Some? {
      DatedRowsAreNot(u, r, p.value, userID, resource);
    }
    hide PeriodFor, RowKey, CreditRow;
  }

  lemma RefundKeepsCredits(c: Config, s: State, req: RefundRequest, now: int, row: string)
    ensures Credits(Refund(c, s, req, now).0, row) == Credits(s, row)
  {
    hide PeriodFor, RowKey, RefundPeriod;
  }

  lemma OthersKeepCredits(c: Config, s: State, op: Op, userID: string, resource: string)
    requires op.ConsumeOp? || op.RefundOp? || op.SetUsageOp? || op.TierOp? || op.QuotaOp?
    requires 0 <= Credits(s, CreditRow(userID, resource))
    ensures Credits(Step(c, s, op), CreditRow(userID, resource)) == Credits(s, CreditRow(userID, resource))
  {
    hide ConsumeDirect, ConsumeCascade, Refund, SetUsage, ApplyTierChange, CreditRow, Credits;
    match op
    case ConsumeOp(call, kind, ticks) =>
      DirectKeepsCredits(c, s, call, kind, ticks(0), userID, resource);
      CascadeKeepsCredits(c, s, call, OrderFor(c, TierFor(c, EntitlementOf(s, call.userID))), 0, ticks, userID,
                          resource);
    case RefundOp(req, now) =>
      RefundKeepsCredits(c, s, req, now, CreditRow(userID, resource));
    case SetUsageOp(u, r, kind, amount, now) =>
      SetUsageKeepsCredits(c, s, u, r, kind, amount, now, userID, resource);
    case TierOp(u, newTier, r, share, now) =>
      TierChangeKeepsCredits(s, u, newTier, r, share, now, userID, resource);
    case QuotaOp(_, _, _, _) =>
  }

  lemma TopUpAdds(s: State, u: string, r: string, amount: int, key: string, now: int, row: string)
    ensures var t := TopUpLimit(s, u, r, amount, key, now).0;
            && Credits(t, row) == Credits(s, row) + ToppedUp(s, u, r, amount, key, row)
            && (amount > 0 && key != "" ==> key in t.topUps)
            && t.topUps >= s.topUps && t.entitlements == s.entitlements
  {
    ForeverRow(u, r, now);
    hide RowKey, CreditRow, ForeverPeriod;
  }

  /** The bonuses of one walk: the first resource with one gets it, the others find the key used. */
  lemma {:induction false} BonusesAdd(s: State, u: string, credits: map<string, int>, walk: seq<string>, now: int,
                                      row: string)
    ensures var t := GrantBonuses(s, u, credits, walk, now);
            && Credits(t, row) == Credits(s, row) + Bonus(s, u, credits, walk, row)
            && (BonusKey(u) in s.topUps ==> Credits(t, row) == Credits(s, row))
            && t.topUps >= s.topUps
    decreases |walk|
  {
    if walk != [] {
      hide TopUpLimit, Credits, CreditRow;
      if walk[0] in credits && credits[walk[0]] > 0 {
        TopUpAdds(s, u, walk[0], credits[walk[0]], BonusKey(u), now, row);
        BonusesAdd(TopUpLimit(s, u, walk[0], credits[walk[0]], BonusKey(u), now).0, u, credits, walk[1..], now, row);
      } else {
        BonusesAdd(s, u, credits, walk[1..], now, row);
      }
    }
  }

  lemma StepKeepsBooks(c: Config, s: State, op: Op, userID: string, resource: string)
    requires 0 <= Credits(s, CreditRow(userID, resource))
    ensures var row := CreditRow(userID, resource);
            && Credits(Step(c, s, op), row) == Credits(s, row) + Granted(c, s, op, row) - TakenBack(s, op, row)
            && 0 <= Credits(Step(c, s, op), row)
  {
    var row := CreditRow(userID, resource);
    match op
    case TopUpOp(u, r, amount, key, now) =>
      TopUpAdds(s, u, r, amount, key, now, row);
      hide TopUpLimit, Credits, CreditRow;
    case CreditsOp(u, r, amount, key, now) =>
      ForeverRow(u, r, now);
      hide RowKey, CreditRow, ForeverPeriod;
    case EntitleOp(ent, walk, now) =>
      if ent.userID != "" && ent.tier in c.tiers {
        var t := Ledger.SetEntitlement(s, ent).0;
        BonusesAdd(t, ent.userID, c.tiers[ent.tier].initialForever, walk, now, row);
        SameBonus(s, t, ent.userID, c.tiers[ent.tier].initialForever, walk, row);
      }
      hide GrantBonuses, Bonus, CreditRow;
    case _ =>
      OthersKeepCredits(c, s, op, userID, resource);
      hide Step, Credits, CreditRow;
  }

  lemma {:induction false} SameBonus(s: State, t: State, u: string, credits: map<string, int>, walk: seq<string>,
                                     row: string)
    requires s.topUps == t.topUps
    ensures Bonus(s, u, credits, walk, row) == Bonus(t, u, credits, walk, row) >= 0
  {
    hide CreditRow;
    if walk != [] {
      SameBonus(s, t, u, credits, walk[1..], row);
    }
  }

  /** Conservation of pre-paid credits: over any run of manager operations, the limit of a credit row is
      what first uses of top-up keys added to it, less what credit refunds took back of what was there. */
  lemma {:induction false} CreditsConserved(c: Config, s: State, ops: seq<Op>, userID: string, resource: string)
    requires 0 <= Credits(s, CreditRow(userID, resource))
    ensures var row := CreditRow(userID, resource);
            && Credits(Run(c, s, ops), row)
               == Credits(s, row) + TotalGranted(c, s, ops, row) - TotalTakenBack(c, s, ops, row)
            && 0 <= Credits(Run(c, s, ops), row)
    decreases |ops|
  {
    if ops != [] {
      hide Step, Credits, Granted, TakenBack, CreditRow;
      StepKeepsBooks(c, s, ops[0], userID, resource);
      CreditsConserved(c, Step(c, s, ops[0]), ops[1..], userID, resource);
    }
  }

  // ---------- the initial bonus ----------

  /** The operation gives the user an initial bonus: some credit row gains. */
  ghost predicate PaysBonus(c: Config, s: State, op: Op, u: string) {
    op.EntitleOp? && op.ent.userID == u && exists row :: Granted(c, s, op, row) != 0
  }

  ghost function BonusesPaid(c: Config, s: State, ops: seq<Op>, u: string): nat
    decreases |ops|
  {
    if ops == [] then 0
    else (if PaysBonus(c, s, ops[0], u) then 1 else 0) + BonusesPaid(c, Step(c, s, ops[0]), ops[1..], u)
  }

  lemma TopUpsGrow(c: Config, s: State, op: Op)
    ensures s.topUps <= Step(c, s, op).topUps
  {
    hide CycleOf, PeriodFor, RowKey, ForeverPeriod, RefundPeriod, LimitFor, TierFor;
    match op
    case ConsumeOp(call, kind, ticks) =>
      hide ConsumeDirect;
      DirectKeepsTopUps(c, s, call, kind, ticks(0));
      var order := OrderFor(c, TierFor(c, EntitlementOf(s, call.userID)));
      CascadeFindsFirst(c, s, call, order, 0, ticks);
      forall k: nat | k < |order| ensures ConsumeDirect(c, s, call, order[k], ticks(k)).0.topUps == s.topUps {
        DirectKeepsTopUps(c, s, call, order[k], ticks(k));
      }
    case EntitleOp(ent, walk, now) =>
      if ent.userID != "" && ent.tier in c.tiers {
        BonusesAdd(Ledger.SetEntitlement(s, ent).0, ent.userID, c.tiers[ent.tier].initialForever, walk, now, "");
      }
      hide GrantBonuses;
    case _ =>
  }

  lemma DirectKeepsTopUps(c: Config, s: State, call: Call, kind: PeriodType, tick: Tick)
    ensures ConsumeDirect(c, s, call, kind, tick).0.topUps == s.topUps
  {
    hide PeriodFor, RowKey, LimitFor;
  }

  lemma {:induction false} BonusIsRecorded(s: State, u: string, credits: map<string, int>, walk: seq<string>,
                                           now: int, row: string)
    requires Bonus(s, u, credits, walk, row) != 0
    ensures BonusKey(u) !in s.topUps && BonusKey(u) in GrantBonuses(s, u, credits, walk, now).topUps
    decreases |walk|
  {
    hide CreditRow, TopUpLimit, Credits;
    if walk[0] in credits && credits[walk[0]] > 0 {
      var t := TopUpLimit(s, u, walk[0], credits[walk[0]], BonusKey(u), now).0;
      TopUpAdds(s, u, walk[0], credits[walk[0]], BonusKey(u), now, row);
      BonusesAdd(t, u, credits, walk[1..], now, row);
    } else {
      BonusIsRecorded(s, u, credits, walk[1..], now, row);
    }
  }

  lemma PaymentIsRecorded(c: Config, s: State, op: Op, u: string)
    requires PaysBonus(c, s, op, u)
    ensures BonusKey(u) !in s.topUps && BonusKey(u) in Step(c, s, op).topUps
  {
    hide Bonus, GrantBonuses, CreditRow;
    var row :| Granted(c, s, op, row) != 0;
    var credits := c.tiers[op.ent.tier].initialForever;
    var t := Ledger.SetEntitlement(s, op.ent).0;
    SameBonus(s, t, u, credits, op.walk, row);
    BonusIsRecorded(t, u, credits, op.walk, op.now, row);
  }

  /** The initial bonus is paid at most once per user over any run of manager operations, and not at all
      when the user's bonus key is already on record. */
  lemma {:induction false} BonusPaidOnce(c: Config, s: State, ops: seq<Op>, u: string)
    ensures BonusesPaid(c, s, ops, u) <= if BonusKey(u) in s.topUps then 0 else 1
    decreases |ops|
  {
    hide Step, PaysBonus, BonusKey;
    if ops != [] {
      TopUpsGrow(c, s, ops[0]);
      if PaysBonus(c, s, ops[0], u) {
        PaymentIsRecorded(c, s, ops[0], u);
      }
      BonusPaidOnce(c, Step(c, s, ops[0]), ops[1..], u);
    }
  }

  /** And it is paid on one resource only: the first of the walk that has a bonus. */
  lemma {:induction false} BonusOnOneRow(s: State, u: string, credits: map<string, int>, walk: seq<string>, row: string)
    ensures Bonus(s, u, credits, walk, row) != 0 <==>
              BonusKey(u) !in s.topUps && exists i :: FirstWithBonus(credits, walk, i) && CreditRow(u, walk[i]) == row
    decreases |walk|
  {
    assert BonusKey(u) != "";
    hide CreditRow, BonusKey;
    if walk != [] {
      var rest := walk[1..];
      if walk[0] in credits && credits[walk[0]] > 0 {
        assert FirstWithBonus(credits, walk, 0);
      } else {
        BonusOnOneRow(s, u, credits, rest, row);
        forall i | FirstWithBonus(credits, rest, i)
          ensures FirstWithBonus(credits, walk, i + 1) && walk[i + 1] == rest[i]
        {
        }
        forall i | FirstWithBonus(credits, walk, i)
          ensures i > 0 && FirstWithBonus(credits, rest, i - 1) && rest[i - 1] == walk[i]
        {
          assert forall j :: 0 <= j < i - 1 ==> rest[j] == walk[j + 1];
        }
      }
    }
  }

  predicate FirstWithBonus(credits: map<string, int>, walk: seq<string>, i: int) {
    && 0 <= i < |walk| && walk[i] in credits && credits[walk[i]] > 0
    && forall j :: 0 <= j < i ==> !(walk[j] in credits && credits[walk[j]] > 0)
  }
}
