/** The in-memory storage (`storage/memory/memory.go`): maps updated in place, each method proved
    against its ledger operation.  A method holds the storage's lock throughout, so it is one step. */
module MemoryStorage {
  import opened Calendar
  import opened Ledger

  class Storage {
    var entitlements: map<string, Entitlement>
    var usage: map<string, Usage>
    var refunds: map<string, RefundRecord>
    var consumptions: map<string, ConsumptionRecord>
    var topUps: map<string, bool>

    ghost predicate Valid()
      reads this
    {
      "" !in entitlements && forall k :: k in topUps ==> topUps[k]
    }

    ghost function Contents(): State
      reads this
    {
      State(entitlements, usage, consumptions, refunds, topUps.Keys)
    }

    constructor ()
      ensures Valid() && Contents() == EMPTY
    {
      entitlements, usage, refunds, consumptions, topUps := map[], map[], map[], map[], map[];
    }

    method GetEntitlement(userID: string) returns (ent: Option<Entitlement>, err: Error)
      ensures err == NoError <==> userID in Contents().entitlements
      ensures err == NoError ==> ent == Some(Contents().entitlements[userID])
      ensures err != NoError ==> ent == None && err == ErrEntitlementNotFound
    {
      if userID !in entitlements {
        return None, ErrEntitlementNotFound;
      }
      return Some(entitlements[userID]), NoError;
    }

    method PutEntitlement(ent: Entitlement) returns (err: Error)
      requires Valid()
      modifies this
      ensures Valid() && (Contents(), err) == Ledger.SetEntitlement(old(Contents()), ent)
    {
      if ent.userID == "" {
        return ErrInvalidEntitlement;
      }
      entitlements := entitlements[ent.userID := ent];
      return NoError;
    }

    method GetUsage(userID: string, resource: string, period: Period) returns (u: Option<Usage>)
      ensures var row := RowKey(userID, resource, period);
              u == if row in Contents().usage then Some(Contents().usage[row]) else None
    {
      var key := RowKey(userID, resource, period);
      if key !in usage {
        return None;
      }
      return Some(usage[key]);
    }

    method GetConsumptionRecord(key: string) returns (r: Option<ConsumptionRecord>)
      ensures r == if key in Contents().consumptions then Some(Contents().consumptions[key]) else None
    {
      if key in consumptions {
        return Some(consumptions[key]);
      }
      return None;
    }

    method GetRefundRecord(key: string) returns (r: Option<RefundRecord>)
      ensures r == if key in Contents().refunds then Some(Contents().refunds[key]) else None
    {
      if key in refunds {
        return Some(refunds[key]);
      }
      return None;
    }

    method ConsumeQuota(req: ConsumeRequest) returns (used: int, err: Error)
      requires Valid()
      modifies this
      ensures Valid() && (Contents(), Reply(used, err)) == Ledger.Consume(old(Contents()), req)
    {
      hide RowKey;
      if req.amount < 0 {
        return 0, ErrInvalidAmount;
      }
      if req.amount == 0 {
        return 0, NoError;
      }
      if req.key != "" && req.key in consumptions {
        return consumptions[req.key].newUsed, NoError;
      }
      var key := RowKey(req.userID, req.resource, req.period);
      var currentUsed := 0;
      if key in usage {
        currentUsed := usage[key].used;
      }
      var newUsed := currentUsed + req.amount;
      if req.limit != -1 && newUsed > req.limit {
        return currentUsed, ErrQuotaExceeded;
      }
      usage := usage[key := Usage(req.userID, req.resource, newUsed, req.limit, req.period, req.tier)];
      if req.key != "" {
        var record := ConsumptionRecord(req.userID, req.resource, req.amount, req.period, newUsed);
        consumptions := consumptions[req.key := record];
      }
      return newUsed, NoError;
    }

    method PutTierChange(req: TierChangeRequest)
      requires Valid()
      modifies this
      ensures Valid() && Contents() == Ledger.ApplyTierChange(old(Contents()), req)
    {
      var key := RowKey(req.userID, req.resource, req.period);
      if key !in usage {
        usage := usage[key := Usage(req.userID, req.resource, req.currentUsed, req.newLimit, req.period, req.newTier)];
        return;
      }
      var u := usage[key];
      u := u.(limit := req.newLimit);
      u := u.(tier := req.newTier);
      usage := usage[key := u];
    }

    method PutUsage(userID: string, resource: string, u: Usage, period: Period)
      requires Valid()
      modifies this
      ensures Valid() && Contents() == Ledger.SetUsage(old(Contents()), userID, resource, u, period)
    {
      usage := usage[RowKey(userID, resource, period) := u];
    }

    method RefundQuota(req: RefundRequest, now: int) returns (err: Error)
      requires Valid()
      modifies this
      ensures Valid() && (Contents(), err) == Ledger.Refund(old(Contents()), req, now)
    {
      hide RowKey, CivilOf, DayOf, Date;
      if req.amount < 0 {
        return ErrInvalidAmount;
      }
      if req.amount == 0 {
        return NoError;
      }
      if req.key != "" && req.key in refunds {
        return NoError;
      }
      var period := req.period;
      if period.start == 0 {
        var c := CivilOf(DayOf(now));
        if req.kind == Monthly {
          var start := Date(c.year, c.month, 1, 0);
          period := Period(start, Date(c.year, c.month + 1, 1, 0), Monthly);
        } else if req.kind == Daily {
          var start := Date(c.year, c.month, c.day, 0);
          period := Period(start, start + TICKS_PER_DAY, Daily);
        } else {
          return ErrInvalidPeriod;
        }
      }
      var key := RowKey(req.userID, req.resource, period);
      if key !in usage {
        return NoError;
      }
      var newUsed := usage[key].used - req.amount;
      if newUsed < 0 {
        newUsed := 0;
      }
      usage := usage[key := usage[key].(used := newUsed)];
      if req.key != "" {
        refunds := refunds[req.key := RefundRecord(req.userID, req.resource, req.amount, period)];
      }
      return NoError;
    }

    method RaiseLimit(userID: string, resource: string, amount: int, period: Period, idempotencyKey: string)
      returns (err: Error)
      requires Valid()
      modifies this
      ensures Valid()
      ensures (Contents(), err) == Ledger.AddLimit(old(Contents()), userID, resource, amount, period, idempotencyKey)
    {
      hide RowKey;
      if idempotencyKey != "" {
        if idempotencyKey in topUps && topUps[idempotencyKey] {
          return ErrIdempotencyKeyExists;
        }
        topUps := topUps[idempotencyKey := true];
        assert topUps.Keys == old(topUps).Keys + {idempotencyKey};
      }
      var key := RowKey(userID, resource, period);
      if key !in usage {
        usage := usage[key := Usage(userID, resource, 0, amount, period, "default")];
        return NoError;
      }
      usage := usage[key := usage[key].(limit := usage[key].limit + amount)];
      return NoError;
    }

    method LowerLimit(userID: string, resource: string, amount: int, period: Period, idempotencyKey: string)
      returns (err: Error)
      requires Valid()
      modifies this
      ensures Valid()
      ensures (Contents(), err)
              == Ledger.SubtractLimit(old(Contents()), userID, resource, amount, period, idempotencyKey)
    {
      hide RowKey;
      if idempotencyKey != "" {
        if idempotencyKey in refunds {
          return ErrIdempotencyKeyExists;
        }
        refunds := refunds[idempotencyKey := RefundRecord(userID, resource, amount, period)];
      }
      var key := RowKey(userID, resource, period);
      if key !in usage {
        return NoError;
      }
      var newLimit := usage[key].limit - amount;
      if newLimit < 0 {
        newLimit := 0;
      }
      usage := usage[key := usage[key].(limit := newLimit)];
      return NoError;
    }
  }
}
