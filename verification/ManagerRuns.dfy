/**
 Idempotency of the manager over whole runs of its operations, and how what it tells about a quota
 relates to what it enforces.
 */
module ManagerRuns {
  import opened Ledger
  import opened Spec = ManagerSpec

  // ---------- consumption keys ----------

  /** Records are never lost or changed. */
  ghost predicate Kept(s: State, t: State) {
    forall k :: k in s.consumptions && k != "" ==> k in t.consumptions && t.consumptions[k] == s.consumptions[k]
  }

  /** What a consumption may do to the records: nothing, or put its new key on record with its answer. */
  ghost predicate Recorded(s: State, call: Call, t: State, reply: Reply) {
    && Kept(s, t)
    && (t != s ==> call.amount > 0 && !call.dryRun && (call.key == "" || call.key !in s.consumptions)
                   && reply.err == NoError)
    && (reply.err == NoError && call.amount > 0 && !call.dryRun && call.key != "" ==>
          call.key in t.consumptions && t.consumptions[call.key].newUsed == reply.used)
  }

  lemma DirectRecords(c: Config, s: State, call: Call, kind: PeriodType, tick: Tick)
    ensures var (t, reply) := ConsumeDirect(c, s, call, kind, tick); Recorded(s, call, t, reply)
  {
    hide PeriodFor, RowKey, LimitFor, TierFor;
  }

  lemma ConsumeRecords(c: Config, s: State, call: Call, kind: PeriodType, ticks: nat -> Tick)
    ensures var (t, reply) := Spec.Consume(c, s, call, kind, ticks); Recorded(s, call, t, reply)
  {
    DirectRecords(c, s, call, kind, ticks(0));
    var order := OrderFor(c, TierFor(c, EntitlementOf(s, call.userID)));
    CascadeFindsFirst(c, s, call, order, 0, ticks);
    assert forall reply: Reply :: reply.err != NoError ==> Recorded(s, call, s, reply);
    hide ConsumeDirect, Recorded, TierFor, OrderFor;
    forall k: nat | FirstToSucceed(c, s, call, order, k, ticks)
      ensures var (t, reply) := ConsumeDirect(c, s, call, order[k], ticks(k)); Recorded(s, call, t, reply)
    {
      DirectRecords(c, s, call, order[k], ticks(k));
    }
  }

  lemma {:induction false} BonusesKeepRecords(s: State, u: string, credits: map<string, int>, walk: seq<string>,
                                              now: int)
    ensures GrantBonuses(s, u, credits, walk, now).consumptions == s.consumptions
    decreases |walk|
  {
    hide RowKey, ForeverPeriod;
    if walk != [] {
      var t := if walk[0] in credits && credits[walk[0]] > 0
               then TopUpLimit(s, u, walk[0], credits[walk[0]], BonusKey(u), now).0 else s;
      BonusesKeepRecords(t, u, credits, walk[1..], now);
    }
  }

  lemma StepKeepsRecords(c: Config, s: State, op: Spec.Op)
    ensures Kept(s, Spec.Step(c, s, op))
    ensures !op.ConsumeOp? ==> Spec.Step(c, s, op).consumptions == s.consumptions
  {
    hide PeriodFor, RowKey, ForeverPeriod, RefundPeriod, LimitFor, TierFor;
    match op
    case ConsumeOp(call, kind, ticks) =>
      ConsumeRecords(c, s, call, kind, ticks);
      hide Spec.Consume, Kept;
    case EntitleOp(ent, walk, now) =>
      if ent.userID != "" && ent.tier in c.tiers {
        BonusesKeepRecords(Ledger.SetEntitlement(s, ent).0, ent.userID, c.tiers[ent.tier].initialForever, walk, now);
      }
      hide GrantBonuses;
    case _ =>
  }

  ghost predicate Charges(c: Config, s: State, op: Spec.Op, key: string) {
    op.ConsumeOp? && op.call.key == key && Spec.Step(c, s, op) != s
  }

  /** The number of consumptions of a run, named by `key`, that change the ledger. */
  ghost function TimesCharged(c: Config, s: State, ops: seq<Spec.Op>, key: string): nat
    decreases |ops|
  {
    if ops == [] then 0
    else (if Charges(c, s, ops[0], key) then 1 else 0) + TimesCharged(c, Spec.Step(c, s, ops[0]), ops[1..], key)
  }

  /** Exactly once, at the manager: over any run of its operations, with consumptions from one period or
      through the cascade, a key charges at most once, and not at all when it is on record. */
  lemma {:induction false} KeyChargesOnce(c: Config, s: State, ops: seq<Spec.Op>, key: string)
    requires key != ""
    ensures TimesCharged(c, s, ops, key) <= if key in s.consumptions then 0 else 1
    decreases |ops|
  {
    if ops != [] {
      StepKeepsRecords(c, s, ops[0]);
      if Charges(c, s, ops[0], key) {
        ConsumeRecords(c, s, ops[0].call, ops[0].kind, ops[0].ticks);
      }
      hide Spec.Consume, Spec.Step, Kept;
      if key in s.consumptions {
        StepKeepsKey(c, s, ops[0], key);
      }
      KeyChargesOnce(c, Spec.Step(c, s, ops[0]), ops[1..], key);
    }
  }

  lemma StepKeepsKey(c: Config, s: State, op: Spec.Op, key: string)
    requires key != "" && key in s.consumptions
    ensures var t := Spec.Step(c, s, op); key in t.consumptions && t.consumptions[key] == s.consumptions[key]
  {
    StepKeepsRecords(c, s, op);
    hide Spec.Step;
  }

  lemma {:induction false} RunKeepsKey(c: Config, s: State, ops: seq<Spec.Op>, key: string)
    requires key != "" && key in s.consumptions
    ensures var t := Spec.Run(c, s, ops); key in t.consumptions && t.consumptions[key] == s.consumptions[key]
    decreases |ops|
  {
    if ops != [] {
      StepKeepsKey(c, s, ops[0], key);
      hide Spec.Step;
      RunKeepsKey(c, Spec.Step(c, s, ops[0]), ops[1..], key);
    }
  }

  /** A charged key keeps its answer: whatever else happens to the ledger, and whatever period, resource or
      amount a later use of the key asks for, it is told what the first use was told, and changes nothing. */
  lemma AnswerIsKept(c: Config, s: State, first: Call, kind: PeriodType, ticks: nat -> Tick, ops: seq<Spec.Op>,
                     again: Call, kind': PeriodType, ticks': nat -> Tick)
    requires first.key != "" && first.amount > 0 && !first.dryRun && again.key == first.key && again.amount > 0
    requires Spec.Consume(c, s, first, kind, ticks).1.err == NoError
    ensures var (t, reply) := Spec.Consume(c, s, first, kind, ticks);
            var u := Spec.Run(c, t, ops);
            Spec.Consume(c, u, again, kind', ticks') == (u, reply)
  {
    ConsumeRecords(c, s, first, kind, ticks);
    var (t, reply) := Spec.Consume(c, s, first, kind, ticks);
    assert first.key in t.consumptions && t.consumptions[first.key].newUsed == reply.used;
    RunKeepsKey(c, t, ops, first.key);
    var u := Spec.Run(c, t, ops);
    hide Spec.Run, Recorded;
    assert again.key in u.consumptions;
  }

  // ---------- what is told and what is enforced ----------

  /** A quota query predicts an admitted consumption from the same period exactly when the limit it tells is
      the one enforced, which it is for pre-paid credits, for a row that has not been charged, and for a
      stored limit that is not positive or equals the tier's. */
  lemma QuotaPredictsConsume(c: Config, s: State, call: Call, kind: PeriodType, tick: Tick)
    requires Consumable(kind) && call.amount > 0 && !call.dryRun && tick.admitted
    requires call.key == "" || call.key !in s.consumptions
    ensures var q := Spec.GetQuota(c, s, call.userID, call.resource, kind, tick.now).0;
            var tier := TierFor(c, EntitlementOf(s, call.userID));
            var row := QuotaRow(s, call.userID, call.resource, kind, tick.now);
            var succeeds := ConsumeDirect(c, s, call, kind, tick).1.err == NoError;
            && q.Some? && row.Some? && q.value.used == UsedOf(s, row.value)
            && (kind == Forever ==>
                  (succeeds <==> row.value in s.usage && s.usage[row.value].limit > 0
                                 && Fits(q.value.limit, q.value.used + call.amount)))
            && (kind != Forever ==>
                  var limit := LimitFor(c, call.resource, tier, kind);
                  && (succeeds <==> (limit == -1 || limit > 0) && Fits(limit, q.value.used + call.amount))
                  && (q.value.limit == limit <==>
                        row.value !in s.usage || s.usage[row.value].limit <= 0 || s.usage[row.value].limit == limit))
  {
    PeriodKind(kind, EntitlementOf(s, call.userID), tick.now);
    hide PeriodFor, RowKey, TierFor, InitialCredits;
    LimitForForever(c, call.resource, TierFor(c, EntitlementOf(s, call.userID)));
    hide LimitFor;
  }

  lemma LimitForForever(c: Config, resource: string, tier: string)
    ensures LimitFor(c, resource, tier, Forever) == 0
  {
  }

  /** A prorated limit is told but not enforced: after a tier change the next consumption from the month is
      admitted by the tier's limit, whatever the share, and stores that limit in the row. */
  lemma ProrationIsNotEnforced(c: Config, s: State, userID: string, newTier: string, resource: string, share: int,
                               call: Call, tick: Tick)
    requires call.userID == userID && call.resource == resource && call.amount > 0 && !call.dryRun && tick.admitted
    requires call.key == "" || call.key !in s.consumptions
    ensures var t := Spec.ApplyTierChange(s, userID, newTier, resource, share, tick.now);
            var row := QuotaRow(s, userID, resource, Monthly, tick.now);
            var limit := LimitFor(c, resource, TierFor(c, EntitlementOf(s, userID)), Monthly);
            var (u, reply) := ConsumeDirect(c, t, call, Monthly, tick);
            && row.Some? && row.value in t.usage
            && t.usage[row.value].used == UsedOf(s, row.value)
            && t.usage[row.value].limit == UsedOf(s, row.value) + (if share < 0 then 0 else share)
            && (reply.err == NoError <==>
                  (limit == -1 || limit > 0) && Fits(limit, UsedOf(s, row.value) + call.amount))
            && (reply.err == NoError ==> row.value in u.usage && u.usage[row.value].limit == limit)
  {
    PeriodKind(Monthly, EntitlementOf(s, userID), tick.now);
    hide PeriodFor, RowKey, TierFor, LimitFor;
  }
}
