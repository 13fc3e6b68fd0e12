/**
 The manager (`pkg/goquota/manager.go`) over the in-memory storage and the LRU cache.  Every operation
 is proved to do to the ledger what `ManagerSpec` says, which knows no cache, and to keep the cache
 coherent with the ledger.  Calls follow each other; `now` is the manager's clock, and `clock` gives the
 readings that the cache takes, which need not be in order.
 */
module Manager {
  import opened Calendar
  import opened Cycle
  import opened Ledger
  import opened LruCache
  import MemoryStorage
  import Spec = ManagerSpec
  import opened ManagerMeaning

  // ---------- coherence ----------

  /** A cached usage agrees with the stored row: in everything but limit and tier; in the tier too unless
      a tier change came after it was cached; then also in the limit, if that is positive in the row. */
  predicate Mirrors(cached: Usage, stored: Usage, stale: bool) {
    && cached.(limit := stored.limit, tier := stored.tier) == stored
    && (!stale ==> cached.tier == stored.tier && (stored.limit > 0 ==> cached.limit == stored.limit))
  }

  ghost predicate UsageCoherent(cached: map<string, Entry<Usage>>, rows: map<string, Usage>, stale: set<string>) {
    forall k :: k in cached ==> k in rows && Mirrors(cached[k].value, rows[k], k in stale)
  }

  ghost predicate EntitlementsCoherent(cached: map<string, Entry<Entitlement>>, stored: map<string, Entitlement>) {
    forall k :: k in cached ==> k in stored && cached[k].value == stored[k]
  }

  /** The copy is found by one of the two look-ups of a quota query. */
  predicate Live(m: map<string, Entry<Usage>>, row: string, clock: nat -> int) {
    row in m && (clock(5) <= m[row].expiration || clock(7) <= m[row].expiration)
  }

  predicate SameUsed(u: Option<Usage>, want: Option<Usage>) {
    u.Some? == want.Some? && (u.Some? ==> u.value.used == want.value.used)
  }

  /** The entitlement is found by one of the two look-ups. */
  predicate Held(m: map<string, Entry<Entitlement>>, userID: string, clock: nat -> int) {
    userID in m && (clock(0) <= m[userID].expiration || clock(2) <= m[userID].expiration)
  }

  /** Changing one row and dropping its cached copy keeps the cache coherent. */
  lemma InvalidationKeepsCoherence(cached: map<string, Entry<Usage>>, rows: map<string, Usage>, stale: set<string>,
                                   row: string, after: map<string, Usage>)
    requires UsageCoherent(cached, rows, stale) && after - {row} == rows - {row}
    ensures UsageCoherent(cached - {row}, after, stale - {row})
  {
    hide Mirrors;
    forall k | k in cached - {row} ensures k in after && Mirrors(cached[k].value, after[k], k in stale - {row}) {
      assert k in rows - {row};
      assert k in after - {row};
      assert rows[k] == (rows - {row})[k] == (after - {row})[k] == after[k];
    }
  }

  lemma EntitlementHit(cached: map<string, Entry<Entitlement>>, stored: map<string, Entitlement>, userID: string,
                       checked: int, touched: int)
    requires EntitlementsCoherent(cached, stored)
    ensures var (after, e) := GetFrom(cached, userID, checked, touched);
            && EntitlementsCoherent(after, stored)
            && (e.Some? ==> userID in stored && e.value == stored[userID])
            && (e == None ==> after == cached)
  {
  }

  lemma EntitlementCopied(cached: map<string, Entry<Entitlement>>, after: map<string, Entry<Entitlement>>,
                          stored: map<string, Entitlement>, userID: string)
    requires EntitlementsCoherent(cached, stored)
    requires userID in after && userID in stored && after[userID].value == stored[userID]
    requires forall k :: k in after && k != userID ==> k in cached && after[k] == cached[k]
    ensures EntitlementsCoherent(after, stored)
  {
  }

  lemma EntitlementReplaced(cached: map<string, Entry<Entitlement>>, stored: map<string, Entitlement>, ent: Entitlement)
    requires EntitlementsCoherent(cached, stored)
    ensures EntitlementsCoherent(cached - {ent.userID}, stored[ent.userID := ent])
  {
  }

  lemma KeyNotEmpty(userID: string, resource: string, period: Period)
    ensures RowKey(userID, resource, period) != ""
  {
  }

  /** What a live copy tells about a row of a coherent cache. */
  lemma CoherentAnswer(cached: map<string, Entry<Usage>>, rows: map<string, Usage>, stale: set<string>, row: string,
                       configured: int)
    requires UsageCoherent(cached, rows, stale) && row in cached
    ensures row in rows && cached[row].value.used == rows[row].used
    ensures Spec.Patched(cached[row].value, configured).used == rows[row].used
    ensures row !in stale && rows[row].limit > 0 ==>
              Spec.Patched(cached[row].value, configured) == Spec.Patched(rows[row], configured)
  {
    PatchMirrors(cached[row].value, rows[row], row in stale, configured);
  }

  /** A look-up finds a copy that mirrors its row, and keeps the cache coherent. */
  lemma HitKeepsCoherence(cached: map<string, Entry<Usage>>, rows: map<string, Usage>, stale: set<string>,
                          row: string, checked: int, touched: int)
    requires UsageCoherent(cached, rows, stale)
    ensures var (after, u) := GetFrom(cached, row, checked, touched);
            UsageCoherent(after, rows, stale)
  {
    hide Mirrors;
  }

  /** Patching the limit that is told keeps a copy a mirror, and makes a fresh one the answer told without
      a cache. */
  lemma PatchMirrors(u: Usage, stored: Usage, stale: bool, configured: int)
    requires Mirrors(u, stored, stale)
    ensures Mirrors(Spec.Patched(u, configured), stored, stale)
    ensures !stale && stored.limit > 0 ==> Spec.Patched(u, configured) == Spec.Patched(stored, configured)
  {
  }

  /** A copy made of the row as it is now is coherent whatever happened to the row before. */
  lemma FreshMirrors(cached: map<string, Entry<Usage>>, after: map<string, Entry<Usage>>, rows: map<string, Usage>,
                     stale: set<string>, row: string)
    requires UsageCoherent(cached, rows, stale)
    requires row in after && row in rows
    requires after[row].value == rows[row]
             || (rows[row].limit <= 0 && after[row].value.(limit := rows[row].limit) == rows[row])
    requires forall k :: k in after && k != row ==> k in cached && after[k] == cached[k]
    ensures UsageCoherent(after, rows, stale - {row})
    ensures Mirrors(after[row].value, rows[row], false)
  {
  }

  lemma RefundTouches(s: State, req: RefundRequest, now: int, row: string)
    requires var q := RefundPeriod(req, now); q.Some? ==> q.value.Key() == req.period.Key()
    requires row == RowKey(req.userID, req.resource, req.period)
    ensures Ledger.Refund(s, req, now).0.usage - {row} == s.usage - {row}
  {
    hide RefundPeriod;
  }

  lemma ConsumeTouches(s: State, req: ConsumeRequest, row: string)
    requires row == RowKey(req.userID, req.resource, req.period)
    ensures var t := Ledger.Consume(s, req).0; t.usage - {row} == s.usage - {row} && t.entitlements == s.entitlements
    ensures var (t, reply) := Ledger.Consume(s, req); reply.err != NoError ==> t == s
  {
    hide RowKey;
  }

  lemma TierChangeGoesStale(cached: map<string, Entry<Usage>>, s: State, stale: set<string>, req: TierChangeRequest)
    requires UsageCoherent(cached, s.usage, stale)
    ensures UsageCoherent(cached, Ledger.ApplyTierChange(s, req).usage,
                          stale + {RowKey(req.userID, req.resource, req.period)})
  {
    hide RowKey;
  }

  lemma DirectFailureKeeps(c: Spec.Config, s: State, call: Spec.Call, kind: PeriodType, tick: Spec.Tick)
    ensures var (t, reply) := Spec.ConsumeDirect(c, s, call, kind, tick);
            reply.err != NoError ==> t == s
  {
    Spec.DirectMeaning(c, s, call, kind, tick);
  }

  /** `Config.validateConsumptionOrder`: the positions found to hold no period that can be consumed from. */
  method ValidateConsumptionOrder(order: seq<PeriodType>) returns (errs: seq<nat>)
    ensures errs == [] <==> Spec.ValidOrder(order)
    ensures forall i: nat :: i in errs <==> i < |order| && !Spec.Consumable(order[i])
  {
    errs := [];
    for i := 0 to |order|
      invariant forall j: nat :: j in errs <==> j < i && !Spec.Consumable(order[j])
    {
      if order[i] != Monthly && order[i] != Daily && order[i] != Forever {
        errs := errs + [i];
      }
    }
    if errs != [] {
      assert errs[0] in errs;
    }
  }

  // ---------- the object ----------

  class Manager {
    const config: Spec.Config
    const cacheTTL: int
    const entitlementTTL: int
    const usageTTL: int
    const storage: MemoryStorage.Storage
    const cache: LRUCache
    /** The rows with a tier change since their cached copy was made or dropped. */
    ghost var stale: set<string>

    ghost predicate Valid()
      reads this, storage, cache
    {
      && storage.Valid() && cache.Valid() && Spec.ValidConfig(config)
      && EntitlementsCoherent(cache.entitlements, storage.entitlements)
      && Bounded(cache.entitlements, cache.maxEntitlements) && Bounded(cache.usage, cache.maxUsage)
    }

    ghost predicate Coherent()
      reads this, storage, cache
    {
      UsageCoherent(cache.usage, storage.usage, stale)
    }

    constructor (config: Spec.Config, storage: MemoryStorage.Storage, cacheTTL: int, entitlementTTL: int, usageTTL: int,
                 maxEntitlements: int, maxUsage: int)
      requires storage.Valid() && Spec.ValidConfig(config)
      ensures Valid() && Coherent() && stale == {} && fresh(cache)
      ensures this.config == config && this.storage == storage
    {
      this.config, this.storage := config, storage;
      this.cacheTTL, this.entitlementTTL, this.usageTTL := cacheTTL, entitlementTTL, usageTTL;
      cache := new LRUCache(maxEntitlements, maxUsage);
      stale := {};
    }

    method GetEntitlement(userID: string, clock: nat -> int) returns (ent: Option<Entitlement>, err: Error)
      requires Valid()
      modifies cache`entitlements, cache`sequence
      ensures Valid() && (old(Coherent()) ==> Coherent()) && ent == Spec.EntitlementOf(storage.Contents(), userID)
      ensures err == if ent.Some? then NoError else ErrEntitlementNotFound
      ensures (err == NoError && !Held(old(cache.entitlements), userID, clock)) ==>
                && userID in cache.entitlements
                && cache.entitlements[userID].expiration
                   == clock(4) + if entitlementTTL > 0 then entitlementTTL else cacheTTL
    {
      hide UsageCoherent, EntitlementsCoherent, Bounded, Numbered, SetsTo, IsVictim;
      EntitlementHit(cache.entitlements, storage.entitlements, userID, clock(0), clock(1));
      ent := cache.GetEntitlement(userID, clock(0), clock(1));
      if ent.Some? {
        return ent, NoError;
      }
      EntitlementHit(cache.entitlements, storage.entitlements, userID, clock(2), clock(3));
      ent := cache.GetEntitlement(userID, clock(2), clock(3));
      if ent.Some? {
        return ent, NoError;
      }
      ent, err := storage.GetEntitlement(userID);
      if err == NoError {
        cache.SetEntitlement(userID, ent.value, clock(4), if entitlementTTL > 0 then entitlementTTL else cacheTTL);
        EntitlementCopied(old(cache.entitlements), cache.entitlements, storage.entitlements, userID);
      }
    }

    /** Drops the cached copy of the one row that has changed since the rows were `before`. */
    method Invalidate(usageKey: string, ghost before: map<string, Usage>)
      requires Valid()
      modifies cache`usage, this`stale
      ensures Valid() && stale == old(stale) - {usageKey}
      ensures (UsageCoherent(old(cache.usage), before, old(stale)) && storage.usage - {usageKey} == before - {usageKey})
              ==> Coherent()
    {
      hide UsageCoherent, EntitlementsCoherent, Numbered, Bounded;
      if UsageCoherent(cache.usage, before, stale) && storage.usage - {usageKey} == before - {usageKey} {
        InvalidationKeepsCoherence(cache.usage, before, stale, usageKey, storage.usage);
      }
      cache.InvalidateUsage(usageKey);
      stale := stale - {usageKey};
    }

    method CurrentPeriod(kind: PeriodType, ent: Option<Entitlement>, now: int) returns (period: Option<Period>)
      ensures period == Spec.PeriodFor(kind, ent, now)
    {
      hide StartOfDay, CycleOf;
      match kind
      case Monthly =>
        var start, end := CurrentCycleForStart(if ent.Some? then ent.value.start else StartOfDay(now), now);
        return Some(Period(start, end, Monthly));
      case Daily =>
        var start := StartOfDay(now);
        return Some(Period(start, start + TICKS_PER_DAY, Daily));
      case Forever =>
        return Some(Period(StartOfDay(now), Spec.FOREVER_END, Forever));
      case _ =>
        return None;
    }

    /** A live copy is told as it is, patched; otherwise a manager tells what it would tell without a cache.
        While the cache is coherent, a live copy too tells the used amount that is told without a cache,
        and the whole answer for a settled row with no tier change since it was cached. */
    method GetQuota(userID: string, resource: string, kind: PeriodType, now: int, clock: nat -> int)
      returns (u: Option<Usage>, err: Error)
      requires Valid()
      modifies cache, this`stale
      ensures Valid() && stale <= old(stale) && (old(Coherent()) ==> Coherent())
      ensures var (want, error) := Spec.GetQuota(config, storage.Contents(), userID, resource, kind, now);
              var row := Spec.QuotaRow(storage.Contents(), userID, resource, kind, now);
              && err == error
              && u == if row.Some? && Live(old(cache.usage), row.value, clock)
                      then Some(Spec.Patched(old(cache.usage)[row.value].value, Configured(userID, resource, kind)))
                      else want
      ensures old(Coherent()) ==>
                var want := Spec.GetQuota(config, storage.Contents(), userID, resource, kind, now).0;
                var row := Spec.QuotaRow(storage.Contents(), userID, resource, kind, now);
                && SameUsed(u, want)
                && (row.Some? && row.value !in old(stale) && Spec.Settled(storage.Contents(), row.value) ==> u == want)
    {
      hide RowKey, Spec.PeriodFor, Spec.LimitFor, Spec.InitialCredits, EntitlementsCoherent, UsageCoherent, Mirrors,
        Numbered, SetsTo, IsVictim, Bounded;
      ghost var copies := cache.usage;
      var ent, entErr := GetEntitlement(userID, clock);
      var tier := config.defaultTier;
      if entErr == NoError {
        tier := ent.value.tier;
      }
      var p := CurrentPeriod(kind, ent, now);
      if p == None {
        return None, ErrInvalidPeriod;
      }
      var period := p.value;
      var configured := Spec.LimitFor(config, resource, tier, kind);
      u := FetchUsage(userID, resource, period, configured, clock);
      if u == None {
        var limit := configured;
        if kind == Forever && limit == 0 {
          limit := Spec.InitialCredits(config, tier, resource);
        }
        u := Some(Usage(userID, resource, 0, limit, period, tier));
      }
      if old(Coherent()) && RowKey(userID, resource, period) in copies {
        CoherentAnswer(copies, storage.usage, old(stale), RowKey(userID, resource, period), configured);
      }
      return u, NoError;
    }

    /** The limit that the user's tier gives. */
    ghost function Configured(userID: string, resource: string, kind: PeriodType): int
      reads this, storage
    {
      Spec.LimitFor(config, resource, Spec.TierFor(config, Spec.EntitlementOf(storage.Contents(), userID)), kind)
    }

    /** The cached copy of a row, or the row itself, with a limit that is not positive patched. */
    method FetchUsage(userID: string, resource: string, period: Period, configured: int, clock: nat -> int)
      returns (u: Option<Usage>)
      requires Valid()
      modifies cache`usage, cache`sequence, this`stale
      ensures Valid() && stale <= old(stale) && (old(Coherent()) ==> Coherent())
      ensures var row := RowKey(userID, resource, period);
              u == if Live(old(cache.usage), row, clock)
                   then Some(Spec.Patched(old(cache.usage)[row].value, configured))
                   else if row in storage.usage then Some(Spec.Patched(storage.usage[row], configured))
                   else None
    {
      hide RowKey, EntitlementsCoherent, UsageCoherent, Numbered, SetsTo, IsVictim, Mirrors, Bounded;
      var usageKey := RowKey(userID, resource, period);
      if old(Coherent()) {
        HitKeepsCoherence(cache.usage, storage.usage, stale, usageKey, clock(5), clock(6));
        HitKeepsCoherence(cache.usage, storage.usage, stale, usageKey, clock(7), clock(8));
      }
      u := cache.GetUsage(usageKey, clock(5), clock(6));
      if u.Some? {
        return Some(if u.value.limit <= 0 then u.value.(limit := configured) else u.value);
      }
      u := cache.GetUsage(usageKey, clock(7), clock(8));
      if u.Some? {
        return Some(if u.value.limit <= 0 then u.value.(limit := configured) else u.value);
      }
      u := LoadUsage(userID, resource, period, configured, clock);
    }

    /** The row itself, after a miss; the copy that is cached is the object that is patched. */
    method LoadUsage(userID: string, resource: string, period: Period, configured: int, clock: nat -> int)
      returns (u: Option<Usage>)
      requires Valid()
      modifies cache`usage, cache`sequence, this`stale
      ensures Valid() && stale <= old(stale) && (old(Coherent()) ==> Coherent())
      ensures var row := RowKey(userID, resource, period);
              && u == (if row in storage.usage then Some(Spec.Patched(storage.usage[row], configured)) else None)
              && (u.Some? ==>
                    && row in cache.usage && cache.usage[row].value == u.value && row !in stale
                    && cache.usage[row].expiration == clock(9) + if usageTTL > 0 then usageTTL else cacheTTL)
    {
      KeyNotEmpty(userID, resource, period);
      hide RowKey, EntitlementsCoherent, UsageCoherent, Numbered, SetsTo, IsVictim, Mirrors, Bounded;
      var usageKey := RowKey(userID, resource, period);
      u := storage.GetUsage(userID, resource, period);
      if u.Some? {
        cache.SetUsage(usageKey, u.value, clock(9), if usageTTL > 0 then usageTTL else cacheTTL);
        if u.value.limit <= 0 {
          u := Some(u.value.(limit := configured));
          // The cache holds the very object that is patched here.
          cache.PatchUsage(usageKey, u.value);
        }
        if old(Coherent()) {
          FreshMirrors(old(cache.usage), cache.usage, storage.usage, stale, usageKey);
        }
        stale := stale - {usageKey};
      }
    }

    method Consume(call: Spec.Call, kind: PeriodType, ticks: nat -> Spec.Tick, clock: nat -> nat -> int)
      returns (used: int, err: Error)
      requires Valid()
      modifies storage, cache, this`stale
      ensures Valid() && stale <= old(stale) && (old(Coherent()) ==> Coherent())
      ensures (storage.Contents(), Reply(used, err)) == Spec.Consume(config, old(storage.Contents()), call, kind, ticks)
      decreases if kind == Auto then 2 else 0
    {
      hide RowKey, Spec.PeriodFor, Spec.LimitFor, UsageCoherent, EntitlementsCoherent, Numbered, Bounded;
      ghost var s := storage.Contents();
      if call.amount < 0 {
        return 0, ErrInvalidAmount;
      }
      if call.amount == 0 {
        return 0, NoError;
      }
      if call.key != "" {
        var existing := storage.GetConsumptionRecord(call.key);
        if existing.Some? {
          return existing.value.newUsed, NoError;
        }
      }
      var ent, entErr := GetEntitlement(call.userID, clock(0));
      var tier := config.defaultTier;
      if entErr == NoError {
        tier := ent.value.tier;
      }
      if kind == Auto {
        used, err := ConsumeInOrder(call, tier, ticks, clock);
        return;
      }
      used, err := ConsumeFrom(call, kind, ent, tier, ticks(0));
    }

    /** The cascade of `Consume`. */
    method ConsumeInOrder(call: Spec.Call, tier: string, ticks: nat -> Spec.Tick, clock: nat -> nat -> int)
      returns (used: int, err: Error)
      requires Valid()
      modifies storage, cache, this`stale
      ensures Valid() && stale <= old(stale) && (old(Coherent()) ==> Coherent())
      ensures (storage.Contents(), Reply(used, err))
              == Spec.ConsumeCascade(config, old(storage.Contents()), call, Spec.OrderFor(config, tier), 0, ticks)
      decreases 1
    {
      hide Spec.ConsumeDirect, UsageCoherent, EntitlementsCoherent, Numbered, Bounded;
      ghost var s := storage.Contents();
      var tierConfig := if tier in config.tiers then config.tiers[tier] else config.tiers[config.defaultTier];
      var consumptionOrder := [Monthly, Daily];
      if tierConfig.order != [] {
        consumptionOrder := tierConfig.order;
      }
      assert consumptionOrder == Spec.OrderFor(config, tier);
      assert forall i :: 0 <= i < |consumptionOrder| ==> Spec.Consumable(consumptionOrder[i]);
      var lastErr := NoError;
      for i := 0 to |consumptionOrder|
        invariant Valid() && stale <= old(stale) && (old(Coherent()) ==> Coherent()) && storage.Contents() == s
        invariant i > 0 ==> lastErr == ErrQuotaExceeded
        invariant Spec.ConsumeCascade(config, s, call, consumptionOrder, 0, ticks)
                  == Spec.ConsumeCascade(config, s, call, consumptionOrder, i, ticks)
      {
        used, err := Consume(call, consumptionOrder[i], n => ticks(i), n => clock(i + 1));
        if err == NoError {
          return;
        }
        DirectFailureKeeps(config, s, call, consumptionOrder[i], ticks(i));
        if err != ErrQuotaExceeded {
          return 0, err;
        }
        lastErr := err;
      }
      return 0, lastErr;
    }

    /** `Consume` from one period, once idempotency, tier and period type are settled. */
    method ConsumeFrom(call: Spec.Call, kind: PeriodType, ent: Option<Entitlement>, tier: string, tick: Spec.Tick)
      returns (used: int, err: Error)
      requires Valid() && call.amount > 0 && (call.key == "" || call.key !in storage.consumptions)
      requires ent == Spec.EntitlementOf(storage.Contents(), call.userID) && tier == Spec.TierFor(config, ent)
      modifies storage, cache, this`stale
      ensures Valid() && stale <= old(stale) && (old(Coherent()) ==> Coherent())
      ensures (storage.Contents(), Reply(used, err))
              == Spec.ConsumeDirect(config, old(storage.Contents()), call, kind, tick)
    {
      hide RowKey, Spec.PeriodFor, Spec.LimitFor, Spec.TierFor, Mirrors, UsageCoherent, Numbered,
        EntitlementsCoherent, Bounded, Ledger.Consume, Spec.ValidConfig;
      ghost var s := storage.Contents();
      var p := CurrentPeriod(kind, ent, tick.now);
      if p == None {
        return 0, ErrInvalidPeriod;
      }
      var period := p.value;
      if !tick.admitted {
        return 0, ErrRateLimitExceeded;
      }
      var limit := Spec.LimitFor(config, call.resource, tier, kind);
      if kind == Forever {
        var usage := storage.GetUsage(call.userID, call.resource, period);
        if usage.Some? && usage.value.limit > 0 {
          limit := usage.value.limit;
        } else {
          return 0, ErrQuotaExceeded;
        }
      }
      if limit == -1 {
      } else if limit <= 0 {
        return 0, ErrQuotaExceeded;
      }
      if call.dryRun {
        var usage := storage.GetUsage(call.userID, call.resource, period);
        var currentUsed := 0;
        if usage.Some? {
          currentUsed := usage.value.used;
        }
        return currentUsed + call.amount, NoError;
      }
      var req := ConsumeRequest(call.userID, call.resource, call.amount, tier, period, limit, call.key);
      used, err := storage.ConsumeQuota(req);
      ConsumeTouches(s, req, RowKey(call.userID, call.resource, period));
      if err == NoError {
        var usageKey := RowKey(call.userID, call.resource, period);
        Invalidate(usageKey, s.usage);
      }
    }

    method Refund(req: RefundRequest, now: int, clock: nat -> int) returns (err: Error)
      requires Valid()
      modifies storage, cache, this`stale
      ensures Valid() && stale <= old(stale)
      ensures var p := Spec.PeriodFor(req.kind, Spec.EntitlementOf(old(storage.Contents()), req.userID), now);
              old(Coherent()) && (p.Some? ==> PeriodTells(p.value, now)) ==> Coherent()
      ensures (storage.Contents(), err) == Spec.Refund(config, old(storage.Contents()), req, now)
    {
      hide RowKey, Spec.PeriodFor, RefundPeriod, Mirrors, UsageCoherent, Numbered, EntitlementsCoherent, Bounded;
      ghost var s := storage.Contents();
      if req.amount < 0 {
        return ErrInvalidAmount;
      }
      if req.amount == 0 {
        return NoError;
      }
      if req.key != "" {
        var existing := storage.GetRefundRecord(req.key);
        if existing.Some? {
          return NoError;
        }
      }
      var ent, _ := GetEntitlement(req.userID, clock);
      var p := CurrentPeriod(req.kind, ent, now);
      if p == None {
        return ErrInvalidPeriod;
      }
      err := storage.RefundQuota(req.(period := p.value), now);
      if err == NoError {
        var usageKey := RowKey(req.userID, req.resource, p.value);
        RefundReachesRow(req, ent, now);
        if PeriodTells(p.value, now) {
          RefundTouches(s, req.(period := p.value), now, usageKey);
        }
        Invalidate(usageKey, s.usage);
      }
    }

    method TopUpLimit(userID: string, resource: string, amount: int, key: string, now: int) returns (err: Error)
      requires Valid()
      modifies storage, cache, this`stale
      ensures Valid() && stale <= old(stale) && (old(Coherent()) ==> Coherent())
      ensures (storage.Contents(), err) == Spec.TopUpLimit(old(storage.Contents()), userID, resource, amount, key, now)
    {
      hide RowKey, StartOfDay, Mirrors, UsageCoherent, Numbered, EntitlementsCoherent, Bounded;
      ghost var s := storage.Contents();
      if amount <= 0 {
        return ErrInvalidAmount;
      }
      var period := Period(StartOfDay(now), Spec.FOREVER_END, Forever);
      err := storage.RaiseLimit(userID, resource, amount, period, key);
      if err == ErrIdempotencyKeyExists {
        return NoError;
      }
      var usageKey := RowKey(userID, resource, period);
      Invalidate(usageKey, s.usage);
    }

    method RefundCredits(userID: string, resource: string, amount: int, key: string, now: int) returns (err: Error)
      requires Valid()
      modifies storage, cache, this`stale
      ensures Valid() && stale <= old(stale) && (old(Coherent()) ==> Coherent())
      ensures (storage.Contents(), err)
              == Spec.RefundCredits(old(storage.Contents()), userID, resource, amount, key, now)
    {
      hide RowKey, StartOfDay, Mirrors, UsageCoherent, Numbered, EntitlementsCoherent, Bounded;
      ghost var s := storage.Contents();
      if amount <= 0 {
        return ErrInvalidAmount;
      }
      var period := Period(StartOfDay(now), Spec.FOREVER_END, Forever);
      err := storage.LowerLimit(userID, resource, amount, period, key);
      if err == ErrIdempotencyKeyExists {
        return NoError;
      }
      var usageKey := RowKey(userID, resource, period);
      Invalidate(usageKey, s.usage);
    }

    method SetUsage(userID: string, resource: string, kind: PeriodType, amount: int, now: int, clock: nat -> int)
      returns (err: Error)
      requires Valid()
      modifies storage, cache, this`stale
      ensures Valid() && stale <= old(stale) && (old(Coherent()) ==> Coherent())
      ensures (storage.Contents(), err)
              == Spec.SetUsage(config, old(storage.Contents()), userID, resource, kind, amount, now)
    {
      hide RowKey, Spec.PeriodFor, Spec.LimitFor, Mirrors, UsageCoherent, Numbered, EntitlementsCoherent, Bounded;
      ghost var s := storage.Contents();
      if amount < 0 {
        return ErrInvalidAmount;
      }
      var ent, entErr := GetEntitlement(userID, clock);
      var tier := config.defaultTier;
      if entErr == NoError {
        tier := ent.value.tier;
      }
      var p := CurrentPeriod(kind, ent, now);
      if p == None {
        return ErrInvalidPeriod;
      }
      var period := p.value;
      var limit := Spec.LimitFor(config, resource, tier, kind);
      if kind == Forever {
        var stored := storage.GetUsage(userID, resource, period);
        if stored.Some? && stored.value.limit > 0 {
          limit := stored.value.limit;
        }
      }
      storage.PutUsage(userID, resource, Usage(userID, resource, amount, limit, period, tier), period);
      var usageKey := RowKey(userID, resource, period);
      Invalidate(usageKey, s.usage);
      return NoError;
    }

    method ResetUsage(userID: string, resource: string, kind: PeriodType, now: int, clock: nat -> int)
      returns (err: Error)
      requires Valid()
      modifies storage, cache, this`stale
      ensures Valid() && stale <= old(stale) && (old(Coherent()) ==> Coherent())
      ensures (storage.Contents(), err)
              == Spec.SetUsage(config, old(storage.Contents()), userID, resource, kind, 0, now)
      ensures err == NoError ==> var row := Spec.QuotaRow(old(storage.Contents()), userID, resource, kind, now);
                                 row.Some? && UsedOf(storage.Contents(), row.value) == 0
    {
      hide RowKey, Spec.PeriodFor, Spec.LimitFor, UsageCoherent, EntitlementsCoherent, Numbered, Bounded;
      err := SetUsage(userID, resource, kind, 0, now, clock);
    }

    /** `walk` is the order in which the map of initial credits yields its resources. */
    method SetEntitlement(ent: Entitlement, walk: seq<string>, now: int) returns (err: Error)
      requires Valid()
      modifies storage, cache, this`stale
      ensures Valid() && stale <= old(stale) && (old(Coherent()) ==> Coherent())
      ensures (storage.Contents(), err) == Spec.SetEntitlement(config, old(storage.Contents()), ent, walk, now)
    {
      hide Spec.TopUpLimit, UsageCoherent, EntitlementsCoherent, Numbered, Bounded;
      err := storage.PutEntitlement(ent);
      if err != NoError {
        return;
      }
      EntitlementReplaced(cache.entitlements, old(storage.entitlements), ent);
      cache.InvalidateEntitlement(ent.userID);
      if ent.tier in config.tiers {
        TopUpBonuses(ent.userID, config.tiers[ent.tier].initialForever, walk, now);
      }
    }

    method TopUpBonuses(userID: string, credits: map<string, int>, walk: seq<string>, now: int)
      requires Valid()
      modifies storage, cache, this`stale
      ensures Valid() && stale <= old(stale) && (old(Coherent()) ==> Coherent())
      ensures storage.Contents() == Spec.GrantBonuses(old(storage.Contents()), userID, credits, walk, now)
    {
      hide Spec.TopUpLimit, UsageCoherent, EntitlementsCoherent, Numbered, Bounded;
      ghost var t := storage.Contents();
      for i := 0 to |walk|
        invariant Valid() && stale <= old(stale) && (old(Coherent()) ==> Coherent())
        invariant Spec.GrantBonuses(t, userID, credits, walk, now)
                  == Spec.GrantBonuses(storage.Contents(), userID, credits, walk[i..], now)
      {
        assert walk[i..][0] == walk[i] && walk[i..][1..] == walk[i + 1..];
        if walk[i] in credits && credits[walk[i]] > 0 {
          var _ := TopUpLimit(userID, walk[i], credits[walk[i]], Spec.BonusKey(userID), now);
        }
      }
    }

    /** The one operation that leaves the cached copy of the row it changes in place. */
    method ApplyTierChange(userID: string, newTier: string, resource: string, share: int, now: int)
      requires Valid()
      modifies storage, this`stale
      ensures Valid() && (old(Coherent()) ==> Coherent())
      ensures storage.Contents() == Spec.ApplyTierChange(old(storage.Contents()), userID, newTier, resource, share, now)
      ensures var row := Spec.QuotaRow(old(storage.Contents()), userID, resource, Monthly, now);
              row.Some? && stale == old(stale) + {row.value}
    {
      hide RowKey, CycleOf, StartOfDay, Mirrors, UsageCoherent, Numbered, EntitlementsCoherent, Bounded;
      ghost var s := storage.Contents();
      var ent, _ := storage.GetEntitlement(userID);
      var p := CurrentPeriod(Monthly, ent, now);
      var period := p.value;
      var u := storage.GetUsage(userID, resource, period);
      var currentUsed := if u.Some? then u.value.used else 0;
      var adjustedLimit := currentUsed + share;
      if adjustedLimit < currentUsed {
        adjustedLimit := currentUsed;
      }
      var req := TierChangeRequest(userID, resource, newTier, period, adjustedLimit, currentUsed);
      storage.PutTierChange(req);
      if old(Coherent()) {
        TierChangeGoesStale(cache.usage, s, stale, req);
      }
      stale := stale + {RowKey(userID, resource, period)};
    }
  }

  // ---------- whole runs ----------

  /** The answers of a cached manager to the queries of a run, next to those of one without a cache. */
  predicate AsUncached(answers: seq<Option<Usage>>, want: seq<Spec.Answer>, exact: bool) {
    && |answers| == |want|
    && forall i :: 0 <= i < |want| ==> && SameUsed(answers[i], want[i].quota)
                                       && (exact && want[i].settled ==> answers[i] == want[i].quota)
  }

  predicate NoTierChange(ops: seq<Spec.Op>) {
    forall i :: 0 <= i < |ops| ==> !ops[i].TierOp?
  }

  predicate RefundTells(s: State, op: Spec.Op) {
    op.RefundOp? ==>
      var p := Spec.PeriodFor(op.req.kind, Spec.EntitlementOf(s, op.req.userID), op.now);
      p.Some? ==> PeriodTells(p.value, op.now)
  }

  /** No refund of the run finds a period that looks like a missing one. */
  predicate RefundsTell(c: Spec.Config, s: State, ops: seq<Spec.Op>)
    decreases |ops|
  {
    ops == [] || (RefundTells(s, ops[0]) && RefundsTell(c, Spec.Step(c, s, ops[0]), ops[1..]))
  }

  lemma {:induction false} LaterClocksTell(c: Spec.Config, s: State, ops: seq<Spec.Op>)
    requires forall i :: 0 <= i < |ops| && ops[i].RefundOp? ==> 0 <= ops[i].now
    ensures RefundsTell(c, s, ops)
    decreases |ops|
  {
    hide Spec.Step, Spec.PeriodFor;
    if ops != [] {
      LaterClocksTell(c, Spec.Step(c, s, ops[0]), ops[1..]);
    }
  }

  lemma NothingAnswered(exact: bool)
    ensures AsUncached([], [], exact)
  {
  }

  lemma AnswersAppend(answers: seq<Option<Usage>>, want: seq<Spec.Answer>, more: seq<Option<Usage>>,
                      wanted: seq<Spec.Answer>, exact: bool)
    requires AsUncached(answers, want, exact) && AsUncached(more, wanted, exact)
    ensures AsUncached(answers + more, want + wanted, exact)
  {
    hide SameUsed;
  }

  lemma ExactIsStronger(answers: seq<Option<Usage>>, want: seq<Spec.Answer>, exact: bool, less: bool)
    requires AsUncached(answers, want, exact) && (less ==> exact)
    ensures AsUncached(answers, want, less)
  {
  }

  /** One operation of a run; the answer is that of a quota query. */
  method Perform(m: Manager, op: Spec.Op, clock: nat -> nat -> int) returns (answers: seq<Option<Usage>>)
    requires m.Valid()
    modifies m`stale, m.storage, m.cache
    ensures m.Valid() && m.storage.Contents() == Spec.Step(m.config, old(m.storage.Contents()), op)
    ensures old(m.Coherent()) && RefundTells(old(m.storage.Contents()), op) ==> m.Coherent()
    ensures !op.TierOp? ==> m.stale <= old(m.stale)
    ensures |answers| == if op.QuotaOp? then 1 else 0
    ensures old(m.Coherent()) ==>
              AsUncached(answers, if op.QuotaOp? then [Spec.AnswerTo(m.config, old(m.storage.Contents()), op)] else [],
                         old(m.stale) == {})
  {
    hide Spec.PeriodFor, RowKey, Spec.Consume, Spec.Refund, Spec.SetUsage, Spec.SetEntitlement, Spec.ApplyTierChange,
      Spec.TopUpLimit, Spec.RefundCredits, UsageCoherent, EntitlementsCoherent, Numbered, Bounded, Live, SameUsed;
    answers := [];
    match op
    case ConsumeOp(call, kind, ticks) =>
      var _, _ := m.Consume(call, kind, ticks, clock);
    case RefundOp(req, now) =>
      var _ := m.Refund(req, now, clock(0));
    case TopUpOp(userID, resource, amount, key, now) =>
      var _ := m.TopUpLimit(userID, resource, amount, key, now);
    case CreditsOp(userID, resource, amount, key, now) =>
      var _ := m.RefundCredits(userID, resource, amount, key, now);
    case SetUsageOp(userID, resource, kind, amount, now) =>
      var _ := m.SetUsage(userID, resource, kind, amount, now, clock(0));
    case EntitleOp(ent, walk, now) =>
      var _ := m.SetEntitlement(ent, walk, now);
    case TierOp(userID, newTier, resource, share, now) =>
      m.ApplyTierChange(userID, newTier, resource, share, now);
    case QuotaOp(userID, resource, kind, now) =>
      hide Spec.GetQuota;
      var u, _ := m.GetQuota(userID, resource, kind, now, clock(0));
      answers := [u];
  }

  /** Whole runs: whatever operations are performed, and whatever the cache holds, evicts or lets expire, the
      ledger ends as it would with no cache.  From a coherent cache, every quota query is told the used
      amount it would be told with no cache, and without a tier change in the run the whole answer, where
      the stored limit is positive or there is no row. */
  method PerformAll(m: Manager, ops: seq<Spec.Op>, clock: nat -> nat -> nat -> int)
    returns (answers: seq<Option<Usage>>)
    requires m.Valid()
    modifies m`stale, m.storage, m.cache
    ensures m.Valid() && m.storage.Contents() == Spec.Run(m.config, old(m.storage.Contents()), ops)
    ensures old(m.Coherent()) && RefundsTell(m.config, old(m.storage.Contents()), ops) ==>
              m.Coherent()
              && AsUncached(answers, Spec.Answers(m.config, old(m.storage.Contents()), ops),
                            old(m.stale) == {} && NoTierChange(ops))
    decreases |ops|
  {
    hide Spec.Step, Spec.AnswerTo, AsUncached, UsageCoherent, EntitlementsCoherent, Numbered, Bounded, RefundTells,
      Spec.ValidConfig;
    ghost var s := m.storage.Contents();
    if ops == [] {
      NothingAnswered(m.stale == {} && NoTierChange(ops));
      return [];
    }
    ghost var told := m.Coherent() && RefundsTell(m.config, s, ops);
    ghost var exact := m.stale == {} && NoTierChange(ops);
    ghost var noneStale := m.stale == {};
    var first := Perform(m, ops[0], clock(0));
    ghost var exactLater := m.stale == {} && NoTierChange(ops[1..]);
    var rest := PerformAll(m, ops[1..], i => clock(i + 1));
    if told {
      ghost var wanted := if ops[0].QuotaOp? then [Spec.AnswerTo(m.config, s, ops[0])] else [];
      ghost var later := Spec.Answers(m.config, Spec.Step(m.config, s, ops[0]), ops[1..]);
      ExactIsStronger(first, wanted, noneStale, exact);
      ExactIsStronger(rest, later, exactLater, exact);
      AnswersAppend(first, wanted, rest, later, exact);
    }
    return first + rest;
  }

  /** What a quota query is told after a tier change, against what it would be told without a cache.  Right
      exactly when no copy is live, or the copy says the same; for a copy made since the last tier change,
      with positive limits, that is when the change changed neither limit nor tier. */
  method QueryAfterTierChange(m: Manager, userID: string, newTier: string, resource: string, share: int, now: int,
                              clock: nat -> int, ghost row: string)
    returns (u: Option<Usage>)
    requires m.Valid() && m.Coherent()
    requires Spec.QuotaRow(m.storage.Contents(), userID, resource, Monthly, now) == Some(row)
    modifies m`stale, m.storage, m.cache
    ensures m.Valid() && m.Coherent() && row in m.storage.usage
    ensures m.storage.usage[row].limit == UsedOf(old(m.storage.Contents()), row) + if share < 0 then 0 else share
    ensures var want := Spec.GetQuota(m.config, m.storage.Contents(), userID, resource, Monthly, now).0;
            var live := Live(old(m.cache.usage), row, clock);
            var configured := m.Configured(userID, resource, Monthly);
            && SameUsed(u, want)
            && (u == want <==>
                  live ==> Spec.Patched(old(m.cache.usage)[row].value, configured)
                           == Spec.Patched(m.storage.usage[row], configured))
            && (live && row !in old(m.stale)
                && old(m.storage.usage)[row].limit > 0 && m.storage.usage[row].limit > 0 ==>
                  (u == want <==> m.storage.usage[row].limit == old(m.storage.usage)[row].limit
                                  && newTier == old(m.storage.usage)[row].tier))
  {
    hide RowKey, CycleOf, StartOfDay, EntitlementsCoherent, Numbered, Bounded, Spec.LimitFor;
    m.ApplyTierChange(userID, newTier, resource, share, now);
    var answer, _ := m.GetQuota(userID, resource, Monthly, now, clock);
    return answer;
  }
}
