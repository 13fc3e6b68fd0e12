/** The tiered storage (`storage/tiered/tiered.go`) over two ledgers: the object with its channel
    queue, its worker and its drain loop.  Each method is one step of the protocol, with the hand-over
    to the queue taken together with the consumption it belongs to. */
module Tiered {
  import opened Ledger
  import opened MemoryStorage
  import opened TieredProtocol

  class TieredStorage {
    const hot: Storage
    const cold: Storage
    const asyncUsageSync: bool
    const syncBufferSize: nat
    var syncQueue: seq<ConsumeRequest>
    var shutdown: bool

    ghost predicate Valid()
      reads this, hot, cold
    {
      hot != cold && hot.Valid() && cold.Valid() && (!asyncUsageSync ==> syncQueue == [])
    }

    /** Nothing the hot store accepted is lost: the queued jobs take cold to hot. */
    ghost predicate Synced()
      reads this, hot, cold
    {
      Replay(cold.Contents(), syncQueue) == hot.Contents()
    }

    constructor (hot: Storage, cold: Storage, asyncUsageSync: bool, syncBufferSize: int)
      requires hot != cold && hot.Valid() && cold.Valid()
      ensures Valid() && this.hot == hot && this.cold == cold && this.asyncUsageSync == asyncUsageSync
      ensures this.syncBufferSize == if syncBufferSize <= 0 then 1000 else syncBufferSize
      ensures syncQueue == [] && !shutdown
      ensures hot.Contents() == cold.Contents() ==> Synced()
    {
      this.hot, this.cold, this.asyncUsageSync := hot, cold, asyncUsageSync;
      this.syncBufferSize := if syncBufferSize <= 0 then 1000 else syncBufferSize;
      syncQueue, shutdown := [], false;
    }

    /** Hot decides and answers.  Nothing is lost unless the queue was full, which is reported. */
    method ConsumeQuota(req: ConsumeRequest) returns (used: int, err: Error, dropped: bool)
      requires Valid()
      modifies this, hot, cold
      ensures Valid() && shutdown == old(shutdown)
      ensures (hot.Contents(), Reply(used, err)) == Consume(old(hot.Contents()), req)
      ensures dropped <==> asyncUsageSync && err == NoError && |old(syncQueue)| >= syncBufferSize
      ensures asyncUsageSync ==> cold.Contents() == old(cold.Contents())
      ensures asyncUsageSync ==> syncQueue == old(syncQueue) + if err == NoError && !dropped then [req] else []
      ensures !asyncUsageSync && err == NoError ==> cold.Contents() == Consume(old(cold.Contents()), req).0
      ensures !asyncUsageSync && err != NoError ==> cold.Contents() == old(cold.Contents())
      ensures old(Synced()) && !dropped ==> Synced()
    {
      used, err := hot.ConsumeQuota(req);
      dropped := false;
      hide Consume;
      RefusedChangesNothing(old(hot.Contents()), req);
      if err != NoError {
        return;
      }
      if asyncUsageSync {
        if |syncQueue| < syncBufferSize {
          ReplayAppend(cold.Contents(), syncQueue, req);
          syncQueue := syncQueue + [req];
        } else {
          dropped := true;
        }
      } else {
        var coldUsed, coldErr := cold.ConsumeQuota(req);
        assert !asyncUsageSync;
      }
    }

    /** One turn of the worker: the oldest job goes to the cold store. */
    method WorkOne() returns (err: Error)
      requires Valid() && syncQueue != []
      modifies this, cold
      ensures Valid() && syncQueue == old(syncQueue)[1..] && shutdown == old(shutdown)
      ensures (cold.Contents(), err) == (Consume(old(cold.Contents()), old(syncQueue)[0]).0,
                                         Consume(old(cold.Contents()), old(syncQueue)[0]).1.err)
      ensures Replay(cold.Contents(), syncQueue) == Replay(old(cold.Contents()), old(syncQueue))
      ensures old(Synced()) ==> Synced()
    {
      var job := syncQueue[0];
      syncQueue := syncQueue[1..];
      var used;
      used, err := cold.ConsumeQuota(job);
    }

    /** Close: the worker drains the queue; with nothing lost, cold ends equal to hot. */
    method Close()
      requires Valid()
      modifies this, cold
      ensures Valid()
      ensures asyncUsageSync ==> shutdown
      ensures old(shutdown) || !asyncUsageSync ==>
                syncQueue == old(syncQueue) && cold.Contents() == old(cold.Contents())
      ensures asyncUsageSync && !old(shutdown) ==>
                syncQueue == [] && cold.Contents() == Replay(old(cold.Contents()), old(syncQueue))
      ensures old(Synced()) ==> Synced()
      ensures old(Synced()) && asyncUsageSync && !old(shutdown) ==> cold.Contents() == hot.Contents()
    {
      if asyncUsageSync && !shutdown {
        shutdown := true;
        while syncQueue != []
          invariant Valid() && shutdown
          invariant hot.Contents() == old(hot.Contents())
          invariant Replay(cold.Contents(), syncQueue) == Replay(old(cold.Contents()), old(syncQueue))
          decreases |syncQueue|
        {
          var err := WorkOne();
        }
      }
    }

    // ---------- reads: hot first, then cold ----------

    method GetUsage(userID: string, resource: string, period: Period) returns (u: Option<Usage>)
      requires Valid()
      modifies hot
      ensures Valid()
      ensures var row := RowKey(userID, resource, period); var h, c := old(hot.Contents()), cold.Contents();
              && u == (if row in h.usage then Some(h.usage[row])
                       else if row in c.usage then Some(c.usage[row]) else None)
              && hot.Contents() == (if row !in h.usage && row in c.usage
                                    then SetUsage(h, userID, resource, c.usage[row], period) else h)
      ensures old(Synced()) ==> Synced() && hot.Contents() == old(hot.Contents())
    {
      RowsReachHot();
      u := hot.GetUsage(userID, resource, period);
      if u != None {
        return;
      }
      u := cold.GetUsage(userID, resource, period);
      if u != None {
        hot.PutUsage(userID, resource, u.value, period);
      }
    }

    /** During sync lag the answer on record is found, although cold does not have it yet. */
    method GetConsumptionRecord(key: string) returns (r: Option<ConsumptionRecord>)
      requires Valid()
      ensures var h, c := hot.Contents().consumptions, cold.Contents().consumptions;
              r == if key in h then Some(h[key]) else if key in c then Some(c[key]) else None
      ensures Synced() && key != "" ==> (r != None <==> key in hot.Contents().consumptions)
    {
      RowsReachHot();
      r := hot.GetConsumptionRecord(key);
      if r != None {
        return;
      }
      r := cold.GetConsumptionRecord(key);
    }

    /** What cold has, hot has too: no read of a synced pair falls through to cold for a row or record
        that hot lacks. */
    lemma RowsReachHot()
      ensures Synced() ==>
                && cold.Contents().usage.Keys <= hot.Contents().usage.Keys
                && cold.Contents().consumptions.Keys <= hot.Contents().consumptions.Keys
                && cold.Contents().refunds == hot.Contents().refunds
                && cold.Contents().topUps == hot.Contents().topUps
                && cold.Contents().entitlements == hot.Contents().entitlements
    {
      ReplayGrows(cold.Contents(), syncQueue);
    }

    method GetRefundRecord(key: string) returns (r: Option<RefundRecord>)
      requires Valid()
      ensures var h, c := hot.Contents().refunds, cold.Contents().refunds;
              r == if key in h then Some(h[key]) else if key in c then Some(c[key]) else None
    {
      r := hot.GetRefundRecord(key);
      if r != None {
        return;
      }
      r := cold.GetRefundRecord(key);
    }

    method GetEntitlement(userID: string) returns (ent: Option<Entitlement>, err: Error)
      requires Valid() && forall k :: k in cold.Contents().entitlements ==> cold.Contents().entitlements[k].userID == k
      modifies hot
      ensures Valid()
      ensures var h, c := old(hot.Contents()), cold.Contents();
              && ent == (if userID in h.entitlements then Some(h.entitlements[userID])
                         else if userID in c.entitlements then Some(c.entitlements[userID]) else None)
              && (err == NoError <==> ent != None)
              && hot.Contents() == (if userID !in h.entitlements && userID in c.entitlements
                                    then SetEntitlement(h, c.entitlements[userID]).0 else h)
      ensures old(Synced()) ==> Synced()
    {
      RowsReachHot();
      ent, err := hot.GetEntitlement(userID);
      if err == NoError {
        return;
      }
      ent, err := cold.GetEntitlement(userID);
      if err != NoError {
        return;
      }
      var ignored := hot.PutEntitlement(ent.value);
    }

    // ---------- writes: cold first, then hot; a cold error stops the write ----------

    method PutUsage(userID: string, resource: string, u: Usage, period: Period)
      requires Valid()
      modifies hot, cold
      ensures Valid()
      ensures cold.Contents() == SetUsage(old(cold.Contents()), userID, resource, u, period)
      ensures hot.Contents() == SetUsage(old(hot.Contents()), userID, resource, u, period)
      ensures old(Synced()) && syncQueue == [] ==> Synced()
    {
      cold.PutUsage(userID, resource, u, period);
      hot.PutUsage(userID, resource, u, period);
    }

    method PutEntitlement(ent: Entitlement) returns (err: Error)
      requires Valid()
      modifies hot, cold
      ensures Valid()
      ensures (cold.Contents(), err) == SetEntitlement(old(cold.Contents()), ent)
      ensures hot.Contents() == SetEntitlement(old(hot.Contents()), ent).0
      ensures old(Synced()) && syncQueue == [] ==> Synced()
    {
      err := cold.PutEntitlement(ent);
      if err != NoError {
        return;
      }
      var ignored := hot.PutEntitlement(ent);
    }

    method PutTierChange(req: TierChangeRequest)
      requires Valid()
      modifies hot, cold
      ensures Valid()
      ensures cold.Contents() == ApplyTierChange(old(cold.Contents()), req)
      ensures hot.Contents() == ApplyTierChange(old(hot.Contents()), req)
      ensures old(Synced()) && syncQueue == [] ==> Synced()
    {
      cold.PutTierChange(req);
      hot.PutTierChange(req);
    }

    method RefundQuota(req: RefundRequest, now: int) returns (err: Error)
      requires Valid()
      modifies hot, cold
      ensures Valid()
      ensures (cold.Contents(), err) == Refund(old(cold.Contents()), req, now)
      ensures hot.Contents() == if err == NoError then Refund(old(hot.Contents()), req, now).0 else old(hot.Contents())
      ensures old(Synced()) && syncQueue == [] ==> Synced()
    {
      hide RowKey, RefundPeriod;
      err := cold.RefundQuota(req, now);
      if err != NoError {
        return;
      }
      var ignored := hot.RefundQuota(req, now);
    }

    method RaiseLimit(userID: string, resource: string, amount: int, period: Period, key: string) returns (err: Error)
      requires Valid()
      modifies hot, cold
      ensures Valid()
      ensures (cold.Contents(), err) == AddLimit(old(cold.Contents()), userID, resource, amount, period, key)
      ensures hot.Contents() == if err == NoError
                then AddLimit(old(hot.Contents()), userID, resource, amount, period, key).0 else old(hot.Contents())
      ensures old(Synced()) && syncQueue == [] ==> Synced()
    {
      hide RowKey;
      err := cold.RaiseLimit(userID, resource, amount, period, key);
      if err != NoError {
        return;
      }
      var ignored := hot.RaiseLimit(userID, resource, amount, period, key);
    }

    method LowerLimit(userID: string, resource: string, amount: int, period: Period, key: string) returns (err: Error)
      requires Valid()
      modifies hot, cold
      ensures Valid()
      ensures (cold.Contents(), err) == SubtractLimit(old(cold.Contents()), userID, resource, amount, period, key)
      ensures hot.Contents() == if err == NoError
                then SubtractLimit(old(hot.Contents()), userID, resource, amount, period, key).0
                else old(hot.Contents())
      ensures old(Synced()) && syncQueue == [] ==> Synced()
    {
      hide RowKey;
      err := cold.LowerLimit(userID, resource, amount, period, key);
      if err != NoError {
        return;
      }
      var ignored := hot.LowerLimit(userID, resource, amount, period, key);
    }
  }

  lemma {:induction false} ReplayGrows(s: State, reqs: seq<ConsumeRequest>)
    ensures s.usage.Keys <= Replay(s, reqs).usage.Keys
    ensures s.consumptions.Keys <= Replay(s, reqs).consumptions.Keys
    ensures Replay(s, reqs).refunds == s.refunds && Replay(s, reqs).topUps == s.topUps
    ensures Replay(s, reqs).entitlements == s.entitlements
    decreases |reqs|
  {
    if reqs != [] {
      hide RequestRow, Fits;
      var t := Consume(s, reqs[0]).0;
      assert s.usage.Keys <= t.usage.Keys && s.consumptions.Keys <= t.consumptions.Keys;
      ReplayGrows(t, reqs[1..]);
    }
  }
}
