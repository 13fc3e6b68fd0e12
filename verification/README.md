# goquota, modelled and proved in Dafny

goquota meters what users consume. A ledger keeps one row per user, resource and billing period; above it
sit a hot/cold pair of ledgers with a replication queue, a PostgreSQL ledger with concurrent transactions,
a manager with a cache, rate limiters, a circuit breaker, and webhooks that set entitlements. This project
models these layers and proves what holds where they meet: over every run, every interleaving of steps,
and every order of delivery.

Objects that the program updates in place are classes here, and each method is proved to make the step of a
specification function; the lemmas then say what runs of those steps keep. Protocols whose steps interleave
(the tiered queue, the SQL transactions, the circuit breaker) are state machines over their steps.

| module | models |
|---|---|
| `Calendar`, `Cycle` | the proleptic Gregorian calendar of Go's `time` package, and anniversary billing cycles |
| `Ledger`, `MemoryStorage` | the ledger's operations, and the in-memory storage that performs them |
| `TieredProtocol`, `Tiered` | hot/cold replication as interleaved steps, and as the object with its queue |
| `Postgres`, `PostgresProgress` | concurrent SQL transactions: what every interleaving keeps, and what each transaction gets done |
| `PostgresRaces`, `PostgresRefunds` | the interleavings that break weaker assumptions, with the exact conditions |
| `ManagerSpec`, `ManagerMeaning`, `ManagerRuns` | the manager's operations without a cache, what they mean to a caller, and runs of them |
| `Manager` | the manager with its cache, proved against these |
| `LruCache` | the cache, against a least-recently-used list with expiry |
| `TokenBucket`, `SlidingWindow`, `RateLimiters` | the quota rate limiters |
| `WebhookLimiter`, `WebhookEvents` | the limiter in front of the webhooks, and last-writer-wins processing |
| `CircuitBreaker` | the circuit breaker under concurrent callers |

Times are integer nanosecond ticks since 0001-01-01 00:00:00 UTC, so Go's zero time is 0. Clock readings,
rate-limiter answers and the order in which Go walks a map are inputs.

## What the code does that its callers may not expect

Each of these is proved, either as a counterexample or as the exact condition under which the property holds.

- A consumption key that names two usage rows can charge twice in PostgreSQL: the second look at the records
  is only safe under the lock of the same row. For charges that their rows can afford, some interleaving does it
  if and only if the key is new and its requests name more than one row (`PostgresRaces.ChargedTwiceIff`).
- A refund key can commit twice in PostgreSQL, because `RefundQuota` does not look again after its lock: some
  interleaving does it if and only if the key is new and two refunds of a positive amount carry it
  (`PostgresRefunds.CommitsTwiceIff`; never in a run in which they do not overlap,
  `PostgresRefunds.RefundOnceWhenApart`). It gives back twice if both find something to give, and if no consumption
  adds to their rows meanwhile, only then (`PostgresRefunds.GivesBackTwiceIff`).
- A top-up adds to the -1 that stands for "unlimited", and so puts a limit on an unlimited row, which may lie below
  what is used (`PostgresRaces.TopUpEndsUnlimited`).
- Jobs are handed to the tiered queue outside the hot store's lock, idempotent hits included. A job that overtakes
  another can change the answers on record, the period, limit and tier that the row stores, and even the totals:
  a hit that overtakes the charge it repeats is charged itself, to its own row, and a charge with a lower limit may
  find no room behind the one that overtook it. Exactly when overtaking is harmless is
  `TieredProtocol.OvertakingHarmlessIff`, and when it keeps the totals, `TieredProtocol.OvertakingKeepsTotalsIff`.
  Without repeated keys and with one limit per row the totals always survive (`TieredProtocol.DrainedGap`).
- The sliding window inside `memory.Storage` keeps everything when every timestamp has expired; once its list is
  full and expired it denies for ever (`SlidingWindow.LockedOut`), and it decides exactly if and only if a
  run never gets there (`SlidingWindow.StorageExactIff`).
- A daily and a monthly period share a row on the day a cycle starts (`Ledger.SharedRow`).
- `ApplyTierChange` does not invalidate the cached row. The next query is answered as without a cache if and only
  if no copy is live or the copy says the same; for an up-to-date copy with positive limits, that is when the change
  changed neither limit nor tier (`Manager.QueryAfterTierChange`).
- A refund whose period starts at Go's zero time, at a clock before that time, reaches another row than the one
  that is invalidated (`ManagerMeaning.RefundReachesRow`, if and only if).
- The prorated limit of a tier change is told by `GetQuota` but not enforced over the in-memory ledger: the next
  monthly consumption is admitted by the tier's own limit and stores it (`ManagerRuns.ProrationIsNotEnforced`).
- The key of the initial bonus names the user only, so of several resources with a bonus only the first one that
  the map yields gets it (`ManagerSpec.BonusOnOneRow`).
- An entry with the empty key is never evicted. While it is the least recently used of a full cache, an insert of a
  new key evicts nothing, and nothing limits the growth (`LruCache.EmptyKeyUnbounds`). The maximum holds over a run
  if and only if that never happens in it (`LruCache.SizeBoundIff`), and so with non-empty keys always
  (`LruCache.SizeBound`). The manager uses no others: `Manager.Manager.Valid`, which every operation keeps, includes
  the bound and the absence of the empty key.
- The in-memory token buckets round their reset times down. A denied caller is told the exact tick if and only if the
  rate divides the window (`TokenBucket.RetryTimes`); when the bucket is full by the time an admitted caller is told
  is `TokenBucket.FullByReset`.
- Two newest webhook events with one timestamp and different contents leave whichever came first, unless what is
  stored is at least as new as both (`WebhookEvents.ConfluentIff`).

## Model

| member | source | states |
|---|---|---|
| Calendar.YearStartClosedForm | pkg/goquota/cycle.go:59-74 | the day number of a year start counts the leap years of the Gregorian rule |
| Calendar.MonthStartClosedForm | pkg/goquota/cycle.go:59-74 | the day number of every month start has the closed form of the Gregorian calendar, which fixes each month's length |
| Calendar.DateNormalised | pkg/goquota/cycle.go:59-74 | a date with any month number, also beyond 12 or below 1, lands on the month that many months on |
| Calendar.LastDayOfMonth | pkg/goquota/cycle.go:59-74 | day 0 of the following month is the last day of the month |
| Calendar.DateOfCivil | pkg/goquota/cycle.go:97-100 | every day number survives the round trip through year, month and day |
| Calendar.CivilOfDate | pkg/goquota/cycle.go:97-100 | every valid date survives the round trip through its day number |
| Calendar.DayTextInjective | pkg/goquota/types.go:37-48 | two days have the same key text exactly when they are the same day |
| Calendar.DayTextReads | pkg/goquota/types.go:37-48 | the key text reads as year, month and day in the layout 2006-01-02 |
| Cycle.StartOfDayIs | pkg/goquota/cycle.go:97-100 | the start of the day is the last midnight at or before the time |
| Cycle.AddMonthsMeaning | pkg/goquota/cycle.go:59-74 | adding months lands on the wanted day, clipped to the target month, at the same time of day |
| Cycle.HelpersAgree | pkg/goquota/cycle.go:78-94 | the two month-adding helpers agree on the date's own day |
| Cycle.AnchorDate | pkg/goquota/cycle.go:30-74 | no drift: the k-th anchor is midnight of min(original day, length of the month), k months on |
| Cycle.CycleLength | pkg/goquota/cycle.go:30-50 | every cycle lasts 28 to 31 whole days, and the first starts on the first day |
| Cycle.AnchorsIncrease | pkg/goquota/cycle.go:30-50 | anchors strictly increase, by at least 28 days each |
| Cycle.CyclePartition | pkg/goquota/cycle.go:21-50 | every time from the first day on is in exactly one cycle, the one returned |
| Cycle.CurrentCycleForStart | pkg/goquota/cycle.go:21-50 | the search loop ends with the cycle in force, and with the first one before the start |
| Cycle.CycleMonotone | pkg/goquota/cycle.go:21-50 | the cycle moves forward with time, and changes exactly at anchors |
| Ledger.RowKeyParts | pkg/goquota/types.go:37-48 | equal row keys have equal period keys |
| Ledger.SharedRow | pkg/goquota/types.go:37-48 | exactly when two periods share a row: both never end, or neither does and they start on one day |
| Ledger.ConsumeMeaning | storage/memory/memory.go:111-171 | which calls change nothing and how they are answered, who is admitted, the one row and record that change, and that all else stays |
| Ledger.RefundMeaning | storage/memory/memory.go:262-302 | as much of the amount as was used leaves the row, the key is recorded, and all else stays; without a row nothing happens |
| Ledger.FallbackPeriod | storage/memory/memory.go:245-265 | a refund without a period is for the calendar month or day of the call |
| Ledger.EarlyAnswers | storage/memory/memory.go:226-262 | the refunds that change nothing, and their answers |
| Ledger.LimitAnswers | storage/memory/memory.go:504-586 | limit changes fail exactly for a used key, and then change nothing |
| Ledger.Conservation | storage/memory/memory.go:111-302 | over any run, used is charges less effective refunds, never negative, never past the stored limit |
| Ledger.ExactlyOnce | storage/memory/memory.go:111-302 | in any run a key changes the ledger at most once, and not at all once recorded |
| Ledger.ReplayReturnsFirstAnswer | storage/memory/memory.go:122-130 | a charged key answers every later use with the first answer, and nothing changes |
| MemoryStorage.Storage.ConsumeQuota | storage/memory/memory.go:111-171 | the method makes the ledger's consume step, against the request's limit, and answers as it does |
| MemoryStorage.Storage.RefundQuota | storage/memory/memory.go:226-302 | the method makes the ledger's refund step, clamped at zero, with the period fallback |
| MemoryStorage.Storage.RaiseLimit | storage/memory/memory.go:504-542 | `AddLimit`: the limit rises once per key; a used key is an error that changes nothing |
| MemoryStorage.Storage.LowerLimit | storage/memory/memory.go:545-586 | `SubtractLimit`: the limit falls once per key, not below zero |
| MemoryStorage.Storage.PutTierChange | storage/memory/memory.go:174-202 | `ApplyTierChange`: limit and tier change, used stays |
| MemoryStorage.Storage.PutUsage | storage/memory/memory.go:210-223 | `SetUsage`: the row is overwritten, every other row stays |
| MemoryStorage.Storage.PutEntitlement | storage/memory/memory.go:80-92 | `SetEntitlement`: stored under its user; an empty user is refused |
| MemoryStorage.Storage.GetEntitlement | storage/memory/memory.go:65-77 | the stored entitlement, or the not-found error |
| MemoryStorage.Storage.GetUsage | storage/memory/memory.go:95-108 | the row under the period's key, or none |
| TieredProtocol.RunSimulates | storage/tiered/tiered.go:80-121 | replaying the outstanding jobs into cold gives hot, after every in-order run; drained, the two are equal |
| TieredProtocol.CanDrain | storage/tiered/tiered.go:80-121 | from everywhere, hand-over and worker can bring all outstanding jobs into cold, dropping none |
| TieredProtocol.QueueBound | storage/tiered/tiered.go:295-316 | the queue stays within its capacity, and nothing is dropped while everything accepted fits into it |
| TieredProtocol.OvertakingChangesRecords | storage/tiered/tiered.go:293-330 | two keyed jobs of one row in the other order: same total, other recorded answer |
| TieredProtocol.OvertakingHarmlessIff | storage/tiered/tiered.go:293-330 | exactly when a job that hot answered later may overtake: no-ops and older hits, a shared key, and fresh jobs each have their condition |
| TieredProtocol.OvertakingKeepsTotalsIff | storage/tiered/tiered.go:293-330 | exactly when the totals of all rows survive the overtaking |
| TieredProtocol.OvertakenReplay | storage/tiered/tiered.go:293-330 | a hit on another row that overtakes its charge: cold exceeds hot on one row and lacks the charge on the other |
| TieredProtocol.ColdAccepts | storage/tiered/tiered.go:95-121 | with balanced books (fresh keys, one limit per row) the worker never meets an error, whatever order jobs arrived in |
| TieredProtocol.RunBalanced | storage/tiered/tiered.go:293-330 | without repeated keys and with one limit per row, in every interleaving hot is cold plus pending plus dropped, row by row |
| TieredProtocol.HotWithinLimit | storage/tiered/tiered.go:293-330 | under the same condition, hot stays within the row's one limit |
| TieredProtocol.DrainedGap | storage/tiered/tiered.go:293-330 | under the same condition, after draining, cold falls short by exactly the dropped amounts; cold never exceeds hot, nor hot the limit |
| Tiered.TieredStorage.ConsumeQuota | storage/tiered/tiered.go:293-330 | hot decides; the job is queued, dropped only when the queue is full, or charged to cold at once |
| Tiered.TieredStorage.WorkOne | storage/tiered/tiered.go:95-121 | one turn of the worker keeps what replaying the queue will give |
| Tiered.TieredStorage.Close | storage/tiered/tiered.go:80-91 | the drain empties the queue into cold; if nothing was lost, cold equals hot |
| Tiered.TieredStorage.GetUsage | storage/tiered/tiered.go:147-170 | hot first, then cold with a copy into hot; no copy is made while the two are in sync |
| Tiered.TieredStorage.GetConsumptionRecord | storage/tiered/tiered.go:188-196 | a key charged in hot is found during the lag, although cold lacks it |
| Tiered.TieredStorage.GetEntitlement | storage/tiered/tiered.go:126-144 | hot first, then cold with a copy into hot |
| Tiered.TieredStorage.RowsReachHot | storage/tiered/tiered.go:147-196 | a row or record of cold is in hot whenever the two are in sync |
| Tiered.TieredStorage.RefundQuota | storage/tiered/tiered.go:279-287 | cold first; hot follows only if cold accepts; in sync and with an empty queue the pair stays in sync |
| Tiered.TieredStorage.RaiseLimit | storage/tiered/tiered.go:241-258 | the top-up is written through to both stores |
| Tiered.ReplayGrows | storage/tiered/tiered.go:95-121 | replaying jobs removes no row and no record |
| Postgres.NextInv | storage/postgres/postgres.go:268-576 | every statement, commit and failure keeps locks exclusive, views true and the books |
| Postgres.NextMoves | storage/postgres/postgres.go:268-576 | a commit moves its row by its own job: the charged amount, what a refund finds to give back, the top-up |
| Postgres.NoLostUpdate | storage/postgres/postgres.go:268-802 | used is its first value plus the amounts of all committed charges less what each committed refund gave back; limits likewise |
| Postgres.SomeoneCanStep | storage/postgres/postgres.go:268-802 | no deadlock among these transactions |
| Postgres.NeverOverLimit | storage/postgres/postgres.go:326-358 | if top-ups name no unlimited row and take nothing away, rows that start within their stored limit stay within it in every interleaving |
| PostgresRaces.TopUpEndsUnlimited | storage/postgres/postgres.go:754-802 | the excluded case: what a top-up leaves of an unlimited row, and exactly when that row is over its new limit |
| PostgresProgress.ConsumeAlone | storage/postgres/postgres.go:268-405 | a consumption alone, with or without a key: replayed, refused for want of room, or its row and key exactly so changed |
| PostgresProgress.RefundAlone | storage/postgres/postgres.go:410-576 | the same for a refund, with or without a row |
| PostgresProgress.TopUpAlone | storage/postgres/postgres.go:754-802 | the same for a top-up |
| PostgresProgress.RefusedForAReason | storage/postgres/postgres.go:268-802 | in every interleaving a refusal or a replay has its reason: no room in the locked row, nothing asked for, or a key on record |
| PostgresProgress.RunsAreShort | storage/postgres/postgres.go:268-802 | no run has more than seven actions for each transaction |
| PostgresProgress.RunCanEnd | storage/postgres/postgres.go:268-802 | wherever a run stands, it can go on until every transaction is finished |
| PostgresProgress.KeysAreScoped | storage/postgres/postgres.go:288-308 | whose records a key can meet: its own kind's, and for consumptions and refunds its own user's |
| Postgres.ExactlyOnce | storage/postgres/postgres.go:268-405 | a key that names one row charges at most once, whatever other keys do, and the answer given is the one on record |
| PostgresRaces.OneKeyTwoRows | storage/postgres/postgres.go:356-405 | among any transactions, some interleaving charges one new key on two rows |
| PostgresRaces.ChargedTwiceIff | storage/postgres/postgres.go:356-405 | for affordable charges: a key can charge twice if and only if it is new and names more than one row |
| PostgresRaces.KnownStaysIdle | storage/postgres/postgres.go:284-308 | a key on record from the start, or an amount that is not positive, never gets past the first look |
| PostgresRefunds.OneKeyTwoRefunds | storage/postgres/postgres.go:448-576 | among any transactions, some interleaving commits any two refunds of one new key, each taking what it finds |
| PostgresRefunds.CommitsTwiceIff | storage/postgres/postgres.go:410-576 | a refund key can commit twice if and only if it is new and two positive refunds carry it |
| PostgresRefunds.OneKeyGivesBackTwice | storage/postgres/postgres.go:448-576 | among any transactions, two such refunds that both find something both give something back |
| PostgresRefunds.GivesBackTwiceIff | storage/postgres/postgres.go:410-576 | where no consumption names the rows: a key can give back twice if and only if it is new and two refunds carry it that both find something |
| PostgresRefunds.UsedNeverRises | storage/postgres/postgres.go:448-576 | what a row has used never rises in a run in which no consumption names it |
| PostgresRefunds.RefundOnceWhenApart | storage/postgres/postgres.go:410-576 | in a run in which the refunds of a key do not overlap, at most one commits |
| ManagerSpec.DirectMeaning | pkg/goquota/manager.go:420-748 | a consumption raises exactly one row by the amount, or changes nothing |
| ManagerSpec.CascadeChargesOnce | pkg/goquota/manager.go:483-513 | the cascade charges the first period of the order that succeeds, exactly once, or changes nothing |
| ManagerSpec.DatedRowsAreNot | pkg/goquota/types.go:37-48 | no daily or monthly row is a credit row, of any user and resource |
| ManagerSpec.OthersKeepCredits | pkg/goquota/manager.go:568-586 | consuming, refunding, setting usage and tier changes leave every credit limit alone |
| ManagerSpec.CreditsConserved | pkg/goquota/manager.go:1241-1352 | over any run a credit limit is first-use top-ups less effective credit refunds, never negative |
| ManagerSpec.BonusPaidOnce | pkg/goquota/manager.go:1029-1049 | the initial bonus is paid at most once per user over any run |
| ManagerSpec.BonusOnOneRow | pkg/goquota/manager.go:1029-1049 | exactly which row gains from a bonus: the first resource of the walk, if the key is new |
| ManagerMeaning.MonthMeaning | pkg/goquota/manager.go:515-526 | a month is the cycle in force of the entitlement's start, or of today without one |
| ManagerMeaning.OtherPeriods | pkg/goquota/manager.go:528-545 | days, credits, and that nothing else is a period |
| ManagerMeaning.DatedConsume | pkg/goquota/manager.go:563-748 | a monthly or daily consumption succeeds exactly within the tier's quota of that period, and stores it |
| ManagerMeaning.CreditConsume | pkg/goquota/manager.go:566-586 | a consumption of credits succeeds exactly within the stored limit, which stays |
| ManagerMeaning.AnsweredEarly | pkg/goquota/manager.go:431-565 | the calls answered before any quota is looked at |
| ManagerMeaning.DryRun | pkg/goquota/manager.go:595-643 | a dry run is told what it would use wherever there is any quota, and changes nothing |
| ManagerMeaning.CascadeOrder | pkg/goquota/manager.go:485-494 | the order of the tier, or month before day |
| ManagerMeaning.CascadeAnswers | pkg/goquota/manager.go:496-513 | the answer of the cascade: the first period's that does not report an exceeded quota |
| ManagerMeaning.AttemptsAreCalls | pkg/goquota/manager.go:499 | each attempt is a call that a caller could make |
| ManagerMeaning.QuotaTold | pkg/goquota/manager.go:366-414 | the used amount and the limit told, from the row and the configured tiers |
| ManagerMeaning.RefundMeaning | pkg/goquota/manager.go:1133-1237 | what a refund takes from the row of its period, and that its key is recorded |
| ManagerMeaning.RefundNothing | pkg/goquota/manager.go:1133-1196 | the refunds that change nothing, and their answers |
| ManagerMeaning.RefundReachesRow | pkg/goquota/manager.go:1157-1211 | the refunded row is the invalidated one if and only if the period or the clock is not before Go's zero time |
| ManagerMeaning.KeyRefundsOnce | pkg/goquota/manager.go:1143-1164 | over any run of manager operations a refund key changes the ledger at most once |
| ManagerMeaning.SetUsageMeaning | pkg/goquota/manager.go:1525-1634 | exactly the given amount, with the tier's quota or the credits there were |
| ManagerMeaning.TopUpMeaning | pkg/goquota/manager.go:1241-1293 | credits rise by the amount, once per key, and what is used stays |
| ManagerMeaning.CreditRefundMeaning | pkg/goquota/manager.go:1297-1352 | credits fall by as much as there is, once per key, and what is used stays |
| ManagerMeaning.EntitlementStored | pkg/goquota/manager.go:1016-1058 | what is stored is what was given, and no row's used amount changes |
| ManagerMeaning.BonusComes | pkg/goquota/manager.go:1029-1049 | a first entitlement with initial credits does pay a bonus |
| ManagerMeaning.BonusKeysDiffer | pkg/goquota/manager.go:1034-1036 | no two users share a bonus key |
| ManagerMeaning.TopUpKeysUsed | pkg/goquota/manager.go:1241-1293 | a top-up key comes on record only by a top-up with it, or by the bonus it names |
| ManagerMeaning.TierChangeMeaning | pkg/goquota/manager.go:931-1013 | limit and tier of the month's row change, and nothing that is used |
| ManagerRuns.KeyChargesOnce | pkg/goquota/manager.go:444-469 | over any run of manager operations, cascade included, a key charges at most once |
| ManagerRuns.AnswerIsKept | pkg/goquota/manager.go:444-469 | a charged key is told its first answer after any run, whatever the later call asks for |
| ManagerRuns.QuotaPredictsConsume | pkg/goquota/manager.go:259-748 | when a consumption succeeds, in terms of what a quota query tells, and exactly when the told limit is the enforced one |
| ManagerRuns.ProrationIsNotEnforced | pkg/goquota/manager.go:931-1013 | a tier change sets used plus share, which the next consumption neither obeys nor keeps |
| Manager.InvalidationKeepsCoherence | pkg/goquota/manager.go:708-711 | changing one row and dropping its copy keeps the cache coherent |
| Manager.ValidateConsumptionOrder | pkg/goquota/types.go:398-412 | an error for exactly the entries that are no consumable period, unknown strings included |
| Manager.Manager.GetEntitlement | pkg/goquota/manager.go:1061-1115 | the stored entitlement, cached or not |
| Manager.Manager.GetQuota | pkg/goquota/manager.go:259-414 | with no live copy, the whole answer of a manager without cache; with one, that copy patched, whose used amount, and limit when settled, are right while the cache is coherent |
| Manager.CoherentAnswer | pkg/goquota/manager.go:311-317 | what a copy in a coherent cache tells about its row |
| Manager.Manager.FetchUsage | pkg/goquota/manager.go:311-405 | exactly what is told: the live copy, else the row, patched when its limit is not positive |
| Manager.Manager.LoadUsage | pkg/goquota/manager.go:331-405 | the row as patched is told, and is what the cache now holds, since the object is shared |
| Manager.Manager.Consume | pkg/goquota/manager.go:420-748 | the ledger changes, and the answer is, as without a cache; coherence is kept |
| Manager.Manager.ConsumeInOrder | pkg/goquota/manager.go:483-513 | the recursive cascade makes the specified one |
| Manager.Manager.ConsumeFrom | pkg/goquota/manager.go:515-748 | one period: rate limit, credits, dry run and charge, as specified |
| Manager.Manager.Refund | pkg/goquota/manager.go:1133-1237 | as without a cache at any clock; coherence is kept unless the period looks missing to the storage |
| Manager.Manager.TopUpLimit | pkg/goquota/manager.go:1241-1293 | as without a cache; a used key succeeds and changes nothing |
| Manager.Manager.RefundCredits | pkg/goquota/manager.go:1297-1352 | as without a cache; a used key succeeds and changes nothing |
| Manager.Manager.SetUsage | pkg/goquota/manager.go:1525-1634 | as without a cache, writing back a positive credit limit; coherence is kept |
| Manager.Manager.ResetUsage | pkg/goquota/manager.go:1682-1684 | the row is at zero afterwards |
| Manager.Manager.SetEntitlement | pkg/goquota/manager.go:1016-1058 | stored, cached copy dropped, bonuses topped up in the order of the walk |
| Manager.Manager.ApplyTierChange | pkg/goquota/manager.go:931-1013 | the row's limit becomes used plus the share, never below used; its copy goes stale |
| Manager.PerformAll | pkg/goquota/manager.go:259-1634 | over any run the ledger is as without a cache; from a coherent one, told used amounts too, and limits when no tier changed |
| Manager.LaterClocksTell | pkg/goquota/manager.go:1157-1196 | refunds at clocks from year 1 on never meet the exception |
| Manager.QueryAfterTierChange | pkg/goquota/manager.go:931-1013 | exactly when the answer after a tier change is right: no live copy, or one that says the same |
| LruCache.VictimUnique | pkg/goquota/cache.go:226-263 | the evicted entry does not depend on the order of the map walk |
| LruCache.HitIff | pkg/goquota/cache.go:196-224 | a look-up hits exactly an entry that has not expired |
| LruCache.LivesForTtl | pkg/goquota/cache.go:226-263 | a stored entry answers for its time to live, the last instant included |
| LruCache.SizeAfterSet | pkg/goquota/cache.go:226-263 | the exact size after an insert: a full cache evicts one entry unless the victim has the empty key |
| LruCache.SizeBound | pkg/goquota/cache.go:123-269 | over any run with non-empty keys the cache never holds more than its maximum |
| LruCache.SizeBoundIff | pkg/goquota/cache.go:123-269 | over any run the maximum holds if and only if no new key meets a full cache whose victim has the empty key |
| LruCache.EmptyKeyUnbounds | pkg/goquota/cache.go:226-263 | while the victim has the empty key, every new key grows a full cache |
| LruCache.GetRefines | pkg/goquota/cache.go:196-224 | a hit moves to the back of the list, a miss or an expired entry moves nothing |
| LruCache.SetRefines | pkg/goquota/cache.go:226-263 | an insert into a full cache evicts the head of the list |
| LruCache.CacheIsLru | pkg/goquota/cache.go:123-269 | with strictly increasing readings the cache answers any sequence as the list does |
| LruCache.LRUCache.Oldest | pkg/goquota/cache.go:233-248 | the walk, in any order, finds the least recently used entry |
| LruCache.LRUCache.Put | pkg/goquota/cache.go:226-263 | the insert and the eviction before it |
| LruCache.LRUCache.GetUsage | pkg/goquota/cache.go:196-224 | a live entry's value, and its access time moves |
| LruCache.LRUCache.SetUsage | pkg/goquota/cache.go:226-263 | the entry is stored, and no other entry is changed |
| TokenBucket.AdmissionBound | pkg/goquota/rate_limiter_memory.go:65-136 | for clock readings in any order, admissions are paid for by tokens and refilled time |
| TokenBucket.SpanBound | pkg/goquota/rate_limiter_memory.go:65-136 | a span of length T admits at most capacity + ceil(rate * T / window) |
| TokenBucket.DeniedIff | pkg/goquota/rate_limiter_memory.go:89-118 | a request is denied exactly when the bucket is empty and too little time has passed for a token |
| TokenBucket.BurstAdmits | pkg/goquota/rate_limiter_memory.go:65-136 | of simultaneous requests as many are admitted as there are tokens |
| TokenBucket.RetryTimes | storage/redis/redis.go:260-264 | Redis names the exact retry tick; the floor version does if and only if the rate divides the window, and is else one tick early; its branch is dead |
| TokenBucket.FullByReset | pkg/goquota/rate_limiter_memory.go:122-129 | from which tick the bucket is full, and exactly when the reset time, rounded down or up, is late enough |
| RateLimiters.NewCallers | pkg/goquota/rate_limiter_memory.go:68-84 | a new caller has a full bucket of the burst, else the rate, and an empty window |
| RateLimiters.MemoryRateLimiter.AllowTokenBucket | pkg/goquota/rate_limiter_memory.go:65-136 | the call is one step of the key's bucket, with its reset time, a rate of zero included; other keys are untouched |
| RateLimiters.MemoryRateLimiter.AllowSlidingWindow | pkg/goquota/rate_limiter_memory.go:138-194 | the pruning loop makes one step of the key's window |
| RateLimiters.StorageSlidingWindows.CheckSlidingWindow | storage/memory/memory.go:414-461 | the scan for the first live timestamp makes one step of the storage's window |
| RateLimiters.RedisTokenBuckets.TokenBucket | storage/redis/redis.go:227-284 | the script makes the same step as the in-memory bucket, also after the burst was lowered, and rounds its reset time up |
| SlidingWindow.PruningIsExact | pkg/goquota/rate_limiter_memory.go:138-194 | the pruned list decides as counting every past admission does |
| SlidingWindow.ReferenceAdmitsIff | pkg/goquota/rate_limiter_memory.go:157-185 | the reference admits exactly when fewer than the limit lie in the window that ends now |
| SlidingWindow.ReferenceBound | pkg/goquota/rate_limiter_memory.go:138-194 | every window holds at most the limit of admissions |
| SlidingWindow.LockedOut | storage/memory/memory.go:428-444 | a full and expired list denies every later request |
| SlidingWindow.StorageExactIff | storage/memory/memory.go:414-461 | the storage's window is exact on a run if and only if no call finds its list full and expired |
| SlidingWindow.StorageBound | storage/memory/memory.go:414-461 | even so, every window holds at most the limit of admissions |
| WebhookLimiter.CleanupIsInvisible | pkg/billing/internal/rate_limiter.go:39-90 | with any cleanups the decisions are those of a limiter that never cleans up |
| WebhookLimiter.CleanupHappens | pkg/billing/internal/rate_limiter.go:43-53 | when a cleanup is due, no expired bucket is left |
| WebhookLimiter.DeniedIff | pkg/billing/internal/rate_limiter.go:55-72 | a request is denied exactly when its address's window holds the limit |
| WebhookLimiter.AddressesApart | pkg/billing/internal/rate_limiter.go:55-72 | addresses do not influence each other |
| WebhookLimiter.TwiceTheLimit | pkg/billing/internal/rate_limiter.go:39-72 | an interval of one window admits at most twice the limit per address |
| WebhookLimiter.RateLimiter.CleanupExpired | pkg/billing/internal/rate_limiter.go:76-82 | the walk removes exactly the expired buckets |
| WebhookLimiter.RateLimiter.Allow | pkg/billing/internal/rate_limiter.go:39-72 | the call makes the specified step, cleanup included |
| WebhookEvents.NewestWins | pkg/billing/revenuecat/provider.go:274-341 | what is stored is the newest event, or what was there if that is newer; ties go to the first |
| WebhookEvents.DeliveredContents | pkg/billing/revenuecat/provider.go:274-341 | the tier, expiry and time stored of the newest event, an expired one at RevenueCat giving the default tier |
| WebhookEvents.FirstStart | pkg/billing/revenuecat/provider.go:307-320 | the first start date: the day of purchase, else today, and none on the default tier |
| WebhookEvents.Confluence | pkg/billing/stripe/webhook.go:123-278 | deliveries of one set of events, in any order and number, leave the same view |
| WebhookEvents.ConfluentIff | pkg/billing/stripe/webhook.go:140-188 | from any stored entitlement, order is irrelevant if and only if the newest events agree or none is newer than it |
| WebhookEvents.StartIsSticky | pkg/billing/revenuecat/provider.go:300-341 | a start date that is set never moves |
| CircuitBreaker.OpenExactlyWhenFailing | pkg/goquota/circuit_breaker.go:66-120 | open exactly when the trailing failures reach the threshold, in any interleaving; callbacks alternate |
| CircuitBreaker.ProbesAreApart | pkg/goquota/circuit_breaker.go:73-111 | while open and failing, attempts that reach the storage are a reset timeout apart |
| CircuitBreaker.AttemptsExact | pkg/goquota/circuit_breaker.go:66-111 | exactly which sequential calls reach the storage, whatever their outcomes, from failures and times alone |
| CircuitBreaker.DefaultCircuitBreaker.State | pkg/goquota/circuit_breaker.go:60-71 | half-open exactly from the reset timeout on |
| CircuitBreaker.DefaultCircuitBreaker.Execute | pkg/goquota/circuit_breaker.go:73-87 | rejected exactly when open and within the reset timeout; a success closes, a failure counts |
| CircuitBreaker.DefaultCircuitBreaker.ReportSuccess | pkg/goquota/circuit_breaker.go:89-97 | failures are cleared, the breaker closes, with a callback only on a change |
| CircuitBreaker.DefaultCircuitBreaker.ReportFailure | pkg/goquota/circuit_breaker.go:99-111 | failures are counted and the breaker opens at the threshold |

## Left out

- HTTP handlers and middleware, the public API package, examples, load scripts, metrics, logging, audit entries, warnings, context cancellation: no deep state.
- Stripe and RevenueCat API calls, signatures, payload parsing, tier mapping from a map walk, and deleted subscriptions (re-synchronised through the API): the tier is a field of the event.
- Firestore, and Redis apart from the token-bucket script: the first rests on a library that is not part of this model, the second on expiry and serialisation.
- Fallback strategies and the circuit breaker between manager and storage: the ledger under the manager never fails, so `Manager` has no such branches; the breaker is modelled on its own.
- Concurrent calls of one manager, and singleflight: manager calls follow each other; the second look-up inside singleflight is kept.
- The cache when it is disabled is not a class of its own: it is `ManagerSpec`, against which the cached manager is proved.
- TryConsume, ConsumeWithResult, GrantOneTimeCredit, Clear, cache statistics: compositions or resets that add only easy members.
- Floating-point rounding: refills and reset times are exact floors, and the prorated share of a tier change is an input.
- Record timestamps, metadata, expiry of idempotency records and their cleanup: a record stays for ever here.
- PostgresRefunds.GivesBackTwiceIff: consumptions of the refunds' own rows in between are not covered by the condition; that it suffices is proved with them too.
- SetUsage, ApplyTierChange and SubtractLimit in PostgreSQL are not among the interleaved transactions.
- A refund in PostgreSQL that finds no row inserts its record and commits in one step: it has no effect on usage.
- checkTokenBucket in storage/memory/memory.go has the same body as the limiter's bucket, but for its branch for a rate of zero, and is modelled with it.
- Tiered refunds and top-ups while jobs are queued: their methods are modelled, but no convergence is claimed, and the code promises none.
- Tiered.TieredStorage.ConsumeQuota: accepts and hands over in one step; the overtaking between the two is in TieredProtocol.
- RateLimiters.MemoryRateLimiter.AllowTokenBucket: negative rates and windows below 1 are not modelled, and the reset time of an admission at rate zero is left open, because it converts a floating-point infinity.
- RateLimiters.RedisTokenBuckets.TokenBucket: rate, window and burst are at least 1.
- WebhookEvents.Confluence: "expired" is judged at one fixed time and an event is handled atomically; the code reads, then writes.
