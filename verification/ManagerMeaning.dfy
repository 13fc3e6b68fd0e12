/**
 What the manager's operations mean to a caller, in terms of the configured tiers, the stored rows and the
 calendar: which quota governs a call, which row it is about, when it succeeds and what it leaves behind.
 */
module ManagerMeaning {
  import opened Calendar
  import opened Cycle
  import opened Ledger
  import opened Spec = ManagerSpec

  /** The tier that serves a user: that of the entitlement if it is configured, otherwise the default tier. */
  predicate ServedBy(c: Config, s: State, userID: string, t: TierConfig) {
    if userID in s.entitlements && s.entitlements[userID].tier in c.tiers
    then t == c.tiers[s.entitlements[userID].tier]
    else c.defaultTier in c.tiers && t == c.tiers[c.defaultTier]
  }

  predicate NewKey(s: State, key: string) {
    key == "" || key !in s.consumptions
  }

  /** Everything but one row is as it was, in the rows and outside them. */
  predicate OnlyRow(s: State, t: State, row: string) {
    t.usage - {row} == s.usage - {row} && t.entitlements == s.entitlements
  }

  // ---------- periods ----------

  /** The cycle in force: the one that holds `now`, or the first one before the subscription starts. */
  ghost predicate InForce(start: int, k: nat, now: int) {
    if now < StartOfDay(start) then k == 0 else InCycle(start, k, now)
  }

  /** A month is the cycle in force of the entitlement's start, or of today without an entitlement. */
  lemma MonthMeaning(ent: Option<Entitlement>, now: int) returns (k: nat)
    ensures var start := if ent.Some? then ent.value.start else DayOf(now) * TICKS_PER_DAY;
            && InForce(start, k, now)
            && PeriodFor(Monthly, ent, now) == Some(Period(Anchor(start, k), Anchor(start, k + 1), Monthly))
  {
    StartOfDayIs(now);
    hide CycleOf, Anchor, InForce, StartOfDay, DayOf;
    k := CycleInForce(if ent.Some? then ent.value.start else StartOfDay(now), now);
  }

  /** A day is the calendar day; credits have no dates in their key; nothing else is a period. */
  lemma OtherPeriods(kind: PeriodType, ent: Option<Entitlement>, now: int)
    ensures var p := PeriodFor(kind, ent, now); var today := DayOf(now) * TICKS_PER_DAY;
            && (kind == Daily ==> p == Some(Period(today, today + TICKS_PER_DAY, Daily)))
            && (kind == Forever ==> p.Some? && p.value.Key() == "forever" && p.value.start == today)
            && (kind != Monthly && kind != Daily && kind != Forever ==> p == None)
  {
    StartOfDayIs(now);
    hide CycleOf, StartOfDay, DayText;
  }

  lemma CycleInForce(start: int, now: int) returns (k: nat)
    ensures InForce(start, k, now) && CycleOf(start, now) == (Anchor(start, k), Anchor(start, k + 1))
  {
    CycleLength(start, 0);
    hide Anchor, StartOfDay;
    if now < StartOfDay(start) {
      k := 0;
    } else {
      k := CyclePartition(start, now);
    }
  }

  // ---------- consuming ----------

  /** A monthly or daily consumption is governed by the tier's monthly or daily quota of the resource, and by
      nothing else: it succeeds exactly when there is one, unlimited or with room, and stores it. */
  lemma DatedConsume(c: Config, s: State, call: Call, kind: PeriodType, ticks: nat -> Tick, tier: TierConfig,
                     row: string)
    requires ServedBy(c, s, call.userID, tier) && (kind == Monthly || kind == Daily)
    requires QuotaRow(s, call.userID, call.resource, kind, ticks(0).now) == Some(row)
    requires call.amount > 0 && NewKey(s, call.key) && !call.dryRun && ticks(0).admitted
    ensures var (t, reply) := Spec.Consume(c, s, call, kind, ticks);
            var quotas := if kind == Monthly then tier.monthly else tier.daily;
            var used := UsedOf(s, row) + call.amount;
            && (reply.err == NoError <==>
                  call.resource in quotas
                  && (quotas[call.resource] == -1 || (0 < quotas[call.resource] && used <= quotas[call.resource])))
            && (reply.err == NoError ==>
                  && reply.used == used && OnlyRow(s, t, row) && row in t.usage
                  && t.usage[row].used == used && t.usage[row].limit == quotas[call.resource])
            && (reply.err != NoError ==> reply.err == ErrQuotaExceeded && t == s)
  {
    hide PeriodFor, RowKey;
  }

  /** Pre-paid credits are governed by the limit stored with them, which they keep. */
  lemma CreditConsume(c: Config, s: State, call: Call, ticks: nat -> Tick)
    requires call.amount > 0 && NewKey(s, call.key) && !call.dryRun && ticks(0).admitted
    ensures var (t, reply) := Spec.Consume(c, s, call, Forever, ticks);
            var row := CreditRow(call.userID, call.resource);
            && (reply.err == NoError <==>
                  row in s.usage && 0 < s.usage[row].limit && s.usage[row].used + call.amount <= s.usage[row].limit)
            && (reply.err == NoError ==>
                  && OnlyRow(s, t, row) && row in t.usage && t.usage[row].limit == s.usage[row].limit
                  && reply.used == t.usage[row].used == s.usage[row].used + call.amount)
            && (reply.err != NoError ==> reply.err == ErrQuotaExceeded && t == s)
  {
    ForeverRow(call.userID, call.resource, ticks(0).now);
    hide RowKey, CreditRow, ForeverPeriod, LimitFor;
  }

  /** The calls that are answered before any quota is looked at. */
  lemma AnsweredEarly(c: Config, s: State, call: Call, kind: PeriodType, ticks: nat -> Tick)
    ensures var answer := Spec.Consume(c, s, call, kind, ticks);
            && (call.amount < 0 ==> answer == (s, Reply(0, ErrInvalidAmount)))
            && (call.amount == 0 ==> answer == (s, Reply(0, NoError)))
            && (call.amount > 0 && !NewKey(s, call.key) ==>
                  answer == (s, Reply(s.consumptions[call.key].newUsed, NoError)))
            && (call.amount > 0 && NewKey(s, call.key) && kind.Unknown? ==> answer == (s, Reply(0, ErrInvalidPeriod)))
            && (call.amount > 0 && NewKey(s, call.key) && Consumable(kind) && !ticks(0).admitted ==>
                  answer == (s, Reply(0, ErrRateLimitExceeded)))
  {
    hide RowKey, CycleOf, StartOfDay, EnforcedLimit;
  }

  /** A dry run is answered as if it fitted, wherever there is any quota, and changes nothing. */
  lemma DryRun(c: Config, s: State, call: Call, kind: PeriodType, ticks: nat -> Tick, tier: TierConfig, row: string)
    requires ServedBy(c, s, call.userID, tier) && Consumable(kind)
    requires QuotaRow(s, call.userID, call.resource, kind, ticks(0).now) == Some(row)
    requires call.amount > 0 && NewKey(s, call.key) && call.dryRun && ticks(0).admitted
    ensures var quotas := if kind == Monthly then tier.monthly else tier.daily;
            var offered := if kind == Forever then row in s.usage && s.usage[row].limit > 0
                           else call.resource in quotas
                                && (quotas[call.resource] == -1 || quotas[call.resource] > 0);
            Spec.Consume(c, s, call, kind, ticks)
            == (s, if offered then Reply(UsedOf(s, row) + call.amount, NoError) else Reply(0, ErrQuotaExceeded))
  {
    hide PeriodFor, RowKey;
  }

  /** The attempts of the cascade are the calls that a caller could make one by one. */
  lemma AttemptsAreCalls(c: Config, s: State, call: Call, kind: PeriodType, tick: Tick)
    requires Consumable(kind)
    ensures ConsumeDirect(c, s, call, kind, tick) == Spec.Consume(c, s, call, kind, (n: nat) => tick)
  {
    hide ConsumeDirect;
  }

  /** The order of the cascade is that of the tier, or month before day if the tier has none. */
  lemma CascadeOrder(c: Config, s: State, userID: string, tier: TierConfig)
    requires ServedBy(c, s, userID, tier)
    ensures OrderFor(c, TierFor(c, EntitlementOf(s, userID)))
            == if tier.order != [] then tier.order else [Monthly, Daily]
  {
  }

  /** What the cascade answers: what the first period says that does not report an exceeded quota, with its
      effect if that is a success; an exceeded quota only if every period reports one. */
  lemma {:induction false} CascadeAnswers(c: Config, s: State, call: Call, order: seq<PeriodType>, i: nat,
                                          ticks: nat -> Tick)
    requires i <= |order|
    ensures var (t, reply) := ConsumeCascade(c, s, call, order, i, ticks);
            && (reply.err == ErrQuotaExceeded <==> AllExceeded(c, s, call, order, i, |order|, ticks))
            && (reply.err != ErrQuotaExceeded ==> exists k: nat ::
                  && i <= k < |order| && AllExceeded(c, s, call, order, i, k, ticks)
                  && var (u, first) := ConsumeDirect(c, s, call, order[k], ticks(k));
                     first.err != ErrQuotaExceeded
                     && (t, reply) == if first.err == NoError then (u, first) else (s, Reply(0, first.err)))
            && (reply.err != NoError ==> t == s)
    decreases |order| - i
  {
    hide ConsumeDirect;
    if i < |order| {
      var first := ConsumeDirect(c, s, call, order[i], ticks(i)).1;
      if first.err == ErrQuotaExceeded {
        CascadeAnswers(c, s, call, order, i + 1, ticks);
        forall k: nat | i + 1 <= k <= |order|
          ensures AllExceeded(c, s, call, order, i, k, ticks) <==> AllExceeded(c, s, call, order, i + 1, k, ticks)
        {
        }
      } else {
        assert AllExceeded(c, s, call, order, i, i, ticks);
      }
    }
  }

  predicate AllExceeded(c: Config, s: State, call: Call, order: seq<PeriodType>, i: nat, k: nat, ticks: nat -> Tick)
    requires k <= |order|
  {
    forall j: nat :: i <= j < k ==> ConsumeDirect(c, s, call, order[j], ticks(j)).1.err == ErrQuotaExceeded
  }

  // ---------- telling ----------

  /** The limit that is told: a positive stored one; else the tier's quota of the period; for credits without a
      row, the initial credits of the tier. */
  lemma QuotaTold(c: Config, s: State, userID: string, resource: string, kind: PeriodType, now: int, tier: TierConfig)
    requires ServedBy(c, s, userID, tier)
    ensures var (u, err) := Spec.GetQuota(c, s, userID, resource, kind, now);
            var row := QuotaRow(s, userID, resource, kind, now);
            var quotas := if kind == Monthly then tier.monthly else if kind == Daily then tier.daily
                          else if row.Some? && row.value in s.usage then map[] else tier.initialForever;
            && u.Some? == row.Some? == Consumable(kind)
            && err == (if Consumable(kind) then NoError else ErrInvalidPeriod)
            && (u.Some? && row.value !in s.usage ==>
                  && u.value.userID == userID && u.value.resource == resource
                  && Some(u.value.period) == PeriodFor(kind, EntitlementOf(s, userID), now))
            && (u.Some? ==>
                  && u.value.used == UsedOf(s, row.value)
                  && u.value.limit == if row.value in s.usage && s.usage[row.value].limit > 0
                                      then s.usage[row.value].limit
                                      else if resource in quotas then quotas[resource] else 0)
  {
    PeriodKind(kind, EntitlementOf(s, userID), now);
    hide PeriodFor, RowKey;
  }

  // ---------- refunds ----------

  /** The period does not look like a missing one: it starts at another time than the zero time, or the
      clock is not before that. */
  predicate PeriodTells(period: Period, now: int) {
    period.start != 0 || 0 <= now
  }

  /** When a refund reaches the row that the manager then drops from its cache.  The storage takes a period
      that starts at the zero time for a missing one, and looks for the current month or day instead. */
  lemma RefundReachesRow(req: RefundRequest, ent: Option<Entitlement>, now: int)
    ensures var p := Spec.PeriodFor(req.kind, ent, now);
            p.Some? ==> var q := RefundPeriod(req.(period := p.value), now);
                        q.Some? ==> (q.value.Key() == p.value.Key() <==> PeriodTells(p.value, now))
  {
    hide CycleOf, CivilOf, Date, DayText, DayOf, StartOfDay;
    var p := Spec.PeriodFor(req.kind, ent, now);
    if p.Some? && p.value.start == 0 {
      match req.kind
      case Monthly => MonthlyFallback(if ent.Some? then ent.value.start else StartOfDay(now), now);
      case Daily => DailyFallback(now);
      case _ =>
    }
  }

  lemma DailyFallback(now: int)
    ensures var c := CivilOf(DayOf(now)); Date(c.year, c.month, c.day, 0) == StartOfDay(now)
    ensures StartOfDay(now) == 0 ==> 0 <= now
  {
    StartOfDayIs(now);
  }

  /** With a cycle that starts at the zero time, the fallback finds the same day only from then on. */
  lemma MonthlyFallback(start: int, now: int)
    requires CycleOf(start, now).0 == 0
    ensures var c := CivilOf(DayOf(now));
            DayText(DayOf(Date(c.year, c.month, 1, 0))) == DayText(DayOf(0)) <==> 0 <= now
  {
    if 0 <= now {
      FirstCycleOfAll(start, now);
    } else {
      MonthBeforeZero(now);
    }
    hide *;
  }

  lemma FirstCycleOfAll(start: int, now: int)
    requires 0 <= now && CycleOf(start, now).0 == 0
    ensures var c := CivilOf(DayOf(now)); Date(c.year, c.month, 1, 0) == 0
  {
    hide Anchor, CycleOf, CivilOf;
    var k := CycleRank(start, now);
    CycleLength(start, k);
    MonthStartStep(12);
    CivilOfMonthDay(12, DayOf(now) + 1);
  }

  lemma MonthBeforeZero(now: int)
    requires now < 0
    ensures var c := CivilOf(DayOf(now)); DayText(DayOf(Date(c.year, c.month, 1, 0))) != DayText(DayOf(0))
  {
    var c := CivilOf(DayOf(now));
    DateOfCivil(DayOf(now));
    hide CivilOf, MonthStart;
    var first := DateDays(c.year, c.month, 1);
    assert first <= DayOf(now) < 0;
    assert DayOf(Date(c.year, c.month, 1, 0)) == first;
    DayTextInjective(first, 0);
  }

  /** A refund takes as much of its amount as was used from the row of its period, and records its key; without
      a row it does nothing at all.  A period that starts at the zero time looks like a missing one: credits are
      then refused, and dated periods found again unless the clock is before that time. */
  lemma RefundMeaning(c: Config, s: State, req: RefundRequest, now: int, row: string)
    requires QuotaRow(s, req.userID, req.resource, req.kind, now) == Some(row)
    requires req.amount > 0 && (req.key == "" || req.key !in s.refunds)
    ensures var (t, err) := Spec.Refund(c, s, req, now);
            var period := PeriodFor(req.kind, EntitlementOf(s, req.userID), now).value;
            if period.start == 0 && req.kind == Forever then (t, err) == (s, ErrInvalidPeriod)
            else PeriodTells(period, now) ==>
              && err == NoError && OnlyRow(s, t, row) && t.consumptions == s.consumptions && t.topUps == s.topUps
              && (row !in s.usage ==> t == s)
              && (row in s.usage ==>
                    && row in t.usage && t.usage[row].(used := s.usage[row].used) == s.usage[row]
                    && t.usage[row].used
                       == (if req.amount <= s.usage[row].used then s.usage[row].used - req.amount else 0)
                    && t.refunds.Keys == s.refunds.Keys + (if req.key == "" then {} else {req.key})
                    && forall k :: k in s.refunds && k != req.key ==> t.refunds[k] == s.refunds[k])
  {
    RefundRow(s, req, now, row);
    var request := req.(period := PeriodFor(req.kind, EntitlementOf(s, req.userID), now).value);
    if RefundPeriod(request, now).Some? {
      Ledger.RefundMeaning(s, request, now, RowKey(req.userID, req.resource, RefundPeriod(request, now).value));
    }
    RefundIsLedgers(c, s, req, now);
    hide Spec.Refund, Ledger.Refund, PeriodFor, RowKey, RefundPeriod, PeriodTells;
  }

  lemma RefundIsLedgers(c: Config, s: State, req: RefundRequest, now: int)
    requires PeriodFor(req.kind, EntitlementOf(s, req.userID), now).Some?
    requires req.amount > 0 && (req.key == "" || req.key !in s.refunds)
    ensures var request := req.(period := PeriodFor(req.kind, EntitlementOf(s, req.userID), now).value);
            && Spec.Refund(c, s, req, now) == Ledger.Refund(s, request, now)
            && (RefundPeriod(request, now) == None ==> Spec.Refund(c, s, req, now) == (s, ErrInvalidPeriod))
  {
    hide PeriodFor, RefundPeriod, RowKey;
  }

  lemma RefundRow(s: State, req: RefundRequest, now: int, row: string)
    requires QuotaRow(s, req.userID, req.resource, req.kind, now) == Some(row)
    ensures var period := PeriodFor(req.kind, EntitlementOf(s, req.userID), now).value;
            var q := RefundPeriod(req.(period := period), now);
            && (q == None <==> period.start == 0 && req.kind == Forever)
            && (q.Some? && PeriodTells(period, now) ==> RowKey(req.userID, req.resource, q.value) == row)
  {
    var ent := EntitlementOf(s, req.userID);
    PeriodKind(req.kind, ent, now);
    RefundReachesRow(req, ent, now);
    hide PeriodFor, CivilOf, Date, DayText, DayOf, PeriodTells;
  }

  /** The refunds that change nothing, and how they are answered. */
  lemma RefundNothing(c: Config, s: State, req: RefundRequest, now: int)
    ensures var answer := Spec.Refund(c, s, req, now);
            && (req.amount < 0 ==> answer == (s, ErrInvalidAmount))
            && (req.amount == 0 ==> answer == (s, NoError))
            && (req.amount > 0 && req.key != "" && req.key in s.refunds ==> answer == (s, NoError))
            && (req.amount > 0 && (req.key == "" || req.key !in s.refunds) && !Consumable(req.kind) ==>
                  answer == (s, ErrInvalidPeriod))
  {
    hide RowKey, CycleOf, StartOfDay, RefundPeriod;
  }

  // ---------- administration ----------

  /** Setting a usage sets exactly that, with the tier's quota for its limit, or the credits it had. */
  lemma SetUsageMeaning(c: Config, s: State, userID: string, resource: string, kind: PeriodType, amount: int, now: int,
                        tier: TierConfig)
    requires ServedBy(c, s, userID, tier)
    ensures var (t, err) := Spec.SetUsage(c, s, userID, resource, kind, amount, now);
            var row := QuotaRow(s, userID, resource, kind, now);
            var quotas := if kind == Monthly then tier.monthly else if kind == Daily then tier.daily else map[];
            && err == (if amount < 0 then ErrInvalidAmount else if Consumable(kind) then NoError else ErrInvalidPeriod)
            && (err != NoError ==> t == s)
            && (err == NoError ==>
                  && row.Some? && OnlyRow(s, t, row.value) && row.value in t.usage
                  && t.usage[row.value].used == amount
                  && t.usage[row.value].userID == userID && t.usage[row.value].resource == resource
                  && t.usage[row.value].limit == (if kind == Forever && row.value in s.usage
                                                     && s.usage[row.value].limit > 0 then s.usage[row.value].limit
                                                  else if resource in quotas then quotas[resource] else 0)
                  && (t.consumptions, t.refunds, t.topUps) == (s.consumptions, s.refunds, s.topUps))
  {
    PeriodKind(kind, EntitlementOf(s, userID), now);
    hide PeriodFor, RowKey;
  }

  /** A top-up adds to the credits and to nothing else, once per key. */
  lemma TopUpMeaning(s: State, userID: string, resource: string, amount: int, key: string, now: int)
    ensures var (t, err) := Spec.TopUpLimit(s, userID, resource, amount, key, now);
            var row := CreditRow(userID, resource);
            var effective := amount > 0 && (key == "" || key !in s.topUps);
            && err == (if amount <= 0 then ErrInvalidAmount else NoError)
            && (!effective ==> t == s)
            && (effective ==>
                  && OnlyRow(s, t, row) && row in t.usage
                  && UsedOf(t, row) == UsedOf(s, row) && Credits(t, row) == Credits(s, row) + amount
                  && (row !in s.usage ==> t.usage[row].userID == userID && t.usage[row].resource == resource)
                  && t.topUps == (if key == "" then s.topUps else s.topUps + {key})
                  && (t.consumptions, t.refunds) == (s.consumptions, s.refunds))
  {
    ForeverRow(userID, resource, now);
    hide RowKey, CreditRow, ForeverPeriod;
  }

  /** A credit refund takes as much of its amount as there is from the credits, once per key, and leaves what
      was used. */
  lemma CreditRefundMeaning(s: State, userID: string, resource: string, amount: int, key: string, now: int)
    requires 0 <= Credits(s, CreditRow(userID, resource))
    ensures var (t, err) := Spec.RefundCredits(s, userID, resource, amount, key, now);
            var row := CreditRow(userID, resource);
            var effective := amount > 0 && (key == "" || key !in s.refunds);
            && err == (if amount <= 0 then ErrInvalidAmount else NoError)
            && (!effective ==> t == s)
            && (effective ==>
                  && OnlyRow(s, t, row) && (row in t.usage <==> row in s.usage)
                  && UsedOf(t, row) == UsedOf(s, row)
                  && Credits(t, row) == (if amount <= Credits(s, row) then Credits(s, row) - amount else 0)
                  && t.refunds.Keys == s.refunds.Keys + (if key == "" then {} else {key})
                  && (t.consumptions, t.topUps) == (s.consumptions, s.topUps))
  {
    ForeverRow(userID, resource, now);
    hide RowKey, CreditRow, ForeverPeriod;
  }

  /** What is stored for a user is the entitlement that was given; no row loses or gains what is used. */
  lemma EntitlementStored(c: Config, s: State, ent: Entitlement, walk: seq<string>, now: int)
    ensures var (t, err) := Spec.SetEntitlement(c, s, ent, walk, now);
            && (err == NoError <==> ent.userID != "") && (err != NoError ==> t == s)
            && (err == NoError ==>
                  && EntitlementOf(t, ent.userID) == Some(ent)
                  && (forall u :: u != ent.userID ==> EntitlementOf(t, u) == EntitlementOf(s, u))
                  && (forall row :: UsedOf(t, row) == UsedOf(s, row))
                  && (t.consumptions, t.refunds) == (s.consumptions, s.refunds))
  {
    if ent.userID != "" && ent.tier in c.tiers {
      BonusesKeepUsed(Ledger.SetEntitlement(s, ent).0, ent.userID, c.tiers[ent.tier].initialForever, walk, now);
    }
    hide GrantBonuses;
  }

  lemma {:induction false} BonusesKeepUsed(s: State, u: string, credits: map<string, int>, walk: seq<string>, now: int)
    ensures var t := GrantBonuses(s, u, credits, walk, now);
            && (forall row :: UsedOf(t, row) == UsedOf(s, row))
            && (t.consumptions, t.refunds, t.entitlements) == (s.consumptions, s.refunds, s.entitlements)
    decreases |walk|
  {
    hide RowKey, ForeverPeriod;
    if walk != [] {
      var t := if walk[0] in credits && credits[walk[0]] > 0
               then TopUpLimit(s, u, walk[0], credits[walk[0]], BonusKey(u), now).0 else s;
      BonusesKeepUsed(t, u, credits, walk[1..], now);
    }
  }

  /** The bonus does come: an entitlement to a tier with initial credits pays one, unless the user's bonus key
      is on record; and no two users share that key. */
  lemma BonusComes(c: Config, s: State, ent: Entitlement, walk: seq<string>, now: int, i: nat)
    requires ent.userID != "" && ent.tier in c.tiers && BonusKey(ent.userID) !in s.topUps
    requires i < |walk| && walk[i] in c.tiers[ent.tier].initialForever && c.tiers[ent.tier].initialForever[walk[i]] > 0
    ensures PaysBonus(c, s, EntitleOp(ent, walk, now), ent.userID)
  {
    var credits := c.tiers[ent.tier].initialForever;
    var k := FirstBonus(credits, walk, i);
    BonusOnOneRow(s, ent.userID, credits, walk, CreditRow(ent.userID, walk[k]));
    assert Granted(c, s, EntitleOp(ent, walk, now), CreditRow(ent.userID, walk[k])) != 0 by {
      hide CreditRow, Bonus;
    }
  }

  lemma FirstBonus(credits: map<string, int>, walk: seq<string>, i: nat) returns (k: nat)
    requires i < |walk| && walk[i] in credits && credits[walk[i]] > 0
    ensures FirstWithBonus(credits, walk, k)
  {
    k := 0;
    while !(walk[k] in credits && credits[walk[k]] > 0)
      invariant k <= i
      invariant forall j :: 0 <= j < k ==> !(walk[j] in credits && credits[walk[j]] > 0)
      decreases i - k
    {
      k := k + 1;
    }
  }

  lemma BonusKeysDiffer(u: string, v: string)
    ensures BonusKey(u) == BonusKey(v) <==> u == v
  {
    assert BonusKey(u)[14..] == u && BonusKey(v)[14..] == v;
  }

  /** Keys of top-ups come on record by being used, and by a bonus. */
  lemma TopUpKeysUsed(c: Config, s: State, op: Spec.Op, key: string)
    requires key !in s.topUps && key in Spec.Step(c, s, op).topUps
    ensures (op.TopUpOp? && op.key == key) || (op.EntitleOp? && BonusKey(op.ent.userID) == key)
  {
    hide PeriodFor, RowKey, ForeverPeriod, RefundPeriod, LimitFor, TierFor;
    match op
    case ConsumeOp(call, kind, ticks) =>
      var order := OrderFor(c, TierFor(c, EntitlementOf(s, call.userID)));
      CascadeFindsFirst(c, s, call, order, 0, ticks);
      DirectKeepsTopUps(c, s, call, kind, ticks(0));
      forall k: nat | k < |order| ensures ConsumeDirect(c, s, call, order[k], ticks(k)).0.topUps == s.topUps {
        DirectKeepsTopUps(c, s, call, order[k], ticks(k));
      }
      hide ConsumeDirect;
    case EntitleOp(ent, walk, now) =>
      if ent.userID != "" && ent.tier in c.tiers {
        BonusesUseTheirKey(Ledger.SetEntitlement(s, ent).0, ent.userID, c.tiers[ent.tier].initialForever, walk, now);
      }
      hide GrantBonuses, BonusKey;
    case _ =>
  }

  lemma {:induction false} BonusesUseTheirKey(s: State, u: string, credits: map<string, int>, walk: seq<string>,
                                              now: int)
    ensures GrantBonuses(s, u, credits, walk, now).topUps <= s.topUps + {BonusKey(u)}
    decreases |walk|
  {
    hide RowKey, ForeverPeriod, BonusKey;
    if walk != [] {
      var t := if walk[0] in credits && credits[walk[0]] > 0
               then TopUpLimit(s, u, walk[0], credits[walk[0]], BonusKey(u), now).0 else s;
      BonusesUseTheirKey(t, u, credits, walk[1..], now);
    }
  }

  /** A tier change sets the month's limit to what is used plus the share, and the tier; it leaves what is used. */
  lemma TierChangeMeaning(s: State, userID: string, newTier: string, resource: string, share: int, now: int)
    ensures var t := Spec.ApplyTierChange(s, userID, newTier, resource, share, now);
            var row := QuotaRow(s, userID, resource, Monthly, now);
            && row.Some? && OnlyRow(s, t, row.value) && row.value in t.usage
            && (forall r :: UsedOf(t, r) == UsedOf(s, r))
            && t.usage[row.value].limit == UsedOf(s, row.value) + (if share < 0 then 0 else share)
            && t.usage[row.value].tier == newTier
            && (t.consumptions, t.refunds, t.topUps) == (s.consumptions, s.refunds, s.topUps)
  {
    PeriodKind(Monthly, EntitlementOf(s, userID), now);
    hide PeriodFor, RowKey;
  }

  // ---------- refund keys over runs ----------

  predicate RefundKeyOf(op: Spec.Op, key: string) {
    (op.RefundOp? && op.req.key == key) || (op.CreditsOp? && op.key == key)
  }

  ghost predicate GivesBack(c: Config, s: State, op: Spec.Op, key: string) {
    RefundKeyOf(op, key) && Spec.Step(c, s, op) != s
  }

  /** The number of refunds and credit refunds of a run, named by `key`, that change the ledger. */
  ghost function TimesRefunded(c: Config, s: State, ops: seq<Spec.Op>, key: string): nat
    decreases |ops|
  {
    if ops == [] then 0
    else (if GivesBack(c, s, ops[0], key) then 1 else 0) + TimesRefunded(c, Spec.Step(c, s, ops[0]), ops[1..], key)
  }

  lemma RefundsRecorded(c: Config, s: State, op: Spec.Op)
    ensures s.refunds.Keys <= Spec.Step(c, s, op).refunds.Keys
    ensures forall key :: key != "" && GivesBack(c, s, op, key) ==>
              key !in s.refunds && key in Spec.Step(c, s, op).refunds
  {
    hide PeriodFor, RowKey, ForeverPeriod, RefundPeriod, LimitFor, TierFor;
    match op
    case ConsumeOp(call, kind, ticks) =>
      var order := OrderFor(c, TierFor(c, EntitlementOf(s, call.userID)));
      CascadeFindsFirst(c, s, call, order, 0, ticks);
      DirectKeepsRefunds(c, s, call, kind, ticks(0));
      forall k: nat | k < |order| ensures ConsumeDirect(c, s, call, order[k], ticks(k)).0.refunds == s.refunds {
        DirectKeepsRefunds(c, s, call, order[k], ticks(k));
      }
      hide ConsumeDirect;
    case EntitleOp(ent, walk, now) =>
      EntitlementStored(c, s, ent, walk, now);
      hide Spec.SetEntitlement;
    case _ =>
  }

  lemma DirectKeepsRefunds(c: Config, s: State, call: Call, kind: PeriodType, tick: Tick)
    ensures ConsumeDirect(c, s, call, kind, tick).0.refunds == s.refunds
  {
    hide PeriodFor, RowKey, LimitFor;
  }

  /** Over any run of manager operations a refund key changes the ledger at most once, as a refund of usage or
      of credits, and not at all when it is on record. */
  lemma {:induction false} KeyRefundsOnce(c: Config, s: State, ops: seq<Spec.Op>, key: string)
    requires key != ""
    ensures TimesRefunded(c, s, ops, key) <= if key in s.refunds then 0 else 1
    decreases |ops|
  {
    hide Spec.Step, GivesBack;
    if ops != [] {
      RefundsRecorded(c, s, ops[0]);
      KeyRefundsOnce(c, Spec.Step(c, s, ops[0]), ops[1..], key);
    }
  }
}
