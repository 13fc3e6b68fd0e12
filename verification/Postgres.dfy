/**
 The PostgreSQL transactions of `storage/postgres/postgres.go` as interleaved steps: `ConsumeQuota`,
 `RefundQuota` and `AddLimit`.  Statements run at READ COMMITTED: a statement sees what was committed
 when it starts, plus its own transaction's writes; a locked or freshly inserted row is held until the
 transaction ends.  Any transaction may fail and roll back at any point.
 */
module Postgres {
  import Ledger

  datatype Row = Row(used: int, limit: int)

  datatype Job =
    | Consume(user: string, key: string, row: string, amount: int, limit: int)
    | Refund(user: string, key: string, row: string, amount: int)
    | TopUp(key: string, row: string, amount: int)

  /** The unique keys of the three record tables. */
  datatype RecordId =
    | ConsumptionId(user: string, key: string)
    | RefundId(user: string, key: string)
    | TopUpId(key: string)

  datatype Pc =
    | Begin
    | Checked                                // the key is not on record
    | Ensured(created: bool)                 // the usage row exists; `created`: by this transaction
    | Locked(view: Row)
    | Updated(view: Row)
    | Rechecked(view: Row)
    | Recorded(view: Row, inserted: bool)    // all statements done; `inserted`: the record is ours
    | Committed(newUsed: int)
    | Replayed(answer: int)
    | Refused
    | Failed

  datatype Tx = Tx(job: Job, pc: Pc)

  datatype Db = Db(rows: map<string, Row>, records: map<RecordId, int>, txs: seq<Tx>)

  function Id(j: Job): RecordId {
    match j
    case Consume(user, key, _, _, _) => ConsumptionId(user, key)
    case Refund(user, key, _, _) => RefundId(user, key)
    case TopUp(key, _, _) => TopUpId(key)
  }

  predicate HasView(p: Pc) {
    p.Locked? || p.Updated? || p.Rechecked? || p.Recorded?
  }

  predicate HoldsRow(t: Tx) {
    HasView(t.pc) || t.pc == Ensured(true)
  }

  /** An uncommitted record insert, which makes other inserts of the same key wait. */
  predicate HoldsId(t: Tx) {
    t.job.key != "" && (if t.job.TopUp? then t.pc.Checked? || t.pc.Recorded? else t.pc.Recorded? && t.pc.inserted)
  }

  predicate Finished(p: Pc) {
    p.Committed? || p.Replayed? || p.Refused? || p.Failed?
  }

  predicate RowFree(db: Db, i: nat)
    requires i < |db.txs|
  {
    forall j :: 0 <= j < |db.txs| && j != i && HoldsRow(db.txs[j]) ==> db.txs[j].job.row != db.txs[i].job.row
  }

  predicate IdFree(db: Db, i: nat)
    requires i < |db.txs|
  {
    forall j :: 0 <= j < |db.txs| && j != i && HoldsId(db.txs[j]) ==> Id(db.txs[j].job) != Id(db.txs[i].job)
  }

  /** Whether the next statement of transaction `i` can run now, or has to wait for a lock. */
  predicate CanStep(db: Db, i: nat)
    requires i < |db.txs|
  {
    var Tx(j, pc) := db.txs[i];
    var known := Id(j) in db.records;
    match pc
    case Begin => j.TopUp? && j.key != "" && !known ==> IdFree(db, i)
    case Checked =>
      if j.Refund? && j.row !in db.rows then j.key != "" && !known ==> IdFree(db, i)
      else if j.Consume? && j.row in db.rows then true
      else RowFree(db, i)
    case Ensured(created) => created || (j.row in db.rows && RowFree(db, i))
    case Rechecked(_) => known || IdFree(db, i)
    case _ => !Finished(pc)
  }

  /** The effect of the next statement of transaction `i`. */
  function Step(db: Db, i: nat): (e: Db)
    requires i < |db.txs| && CanStep(db, i)
    ensures |e.txs| == |db.txs| && forall k :: 0 <= k < |db.txs| ==> e.txs[k].job == db.txs[k].job
  {
    var Tx(j, pc) := db.txs[i];
    var id := Id(j);
    var keyed := j.key != "";
    var known := keyed && id in db.records;
    match pc
    case Begin =>
      if !j.TopUp? && j.amount <= 0 then Goto(db, i, Refused)
      else if known then Goto(db, i, if j.TopUp? then Refused else Replayed(db.records[id]))
      else Goto(db, i, Checked)
    case Checked =>
      (match j
       case Consume(_, _, row, _, _) => Goto(db, i, Ensured(row !in db.rows))
       case Refund(_, _, row, _) =>
         if row in db.rows then Goto(db, i, Locked(db.rows[row]))
         else
           Goto(if keyed && !known then db.(records := db.records[id := 0]) else db, i, Committed(0))
       case TopUp(_, row, amount) =>
         var base := if row in db.rows then db.rows[row] else Row(0, 0);
         Goto(db, i, Recorded(base.(limit := base.limit + amount), keyed)))
    case Ensured(created) =>
      Goto(db, i, Locked(if created then Row(0, if j.Consume? then j.limit else 0) else db.rows[j.row]))
    case Locked(v) =>
      (match j
       case Consume(_, _, _, amount, _) =>
         if Ledger.Fits(v.limit, v.used + amount) then Goto(db, i, Updated(v.(used := v.used + amount)))
         else Goto(db, i, Refused)
       case _ => Goto(db, i, Updated(v.(used := if v.used < j.amount then 0 else v.used - j.amount))))
    case Updated(v) =>
      if !keyed then Goto(db, i, Recorded(v, false))
      else if known && j.Consume? then Goto(db, i, Replayed(db.records[id]))
      else Goto(db, i, Rechecked(v))
    case Rechecked(v) => Goto(db, i, Recorded(v, !known))
    case Recorded(v, inserted) => Commit(db, i)
    case _ => db
  }

  function Goto(db: Db, i: nat, pc: Pc): (e: Db)
    requires i < |db.txs|
    ensures |e.txs| == |db.txs| && forall k :: 0 <= k < |db.txs| ==> e.txs[k].job == db.txs[k].job
  {
    db.(txs := db.txs[i := db.txs[i].(pc := pc)])
  }

  /** The row as the transaction's changes found it. */
  function Base(db: Db, j: Job): Row {
    if j.row in db.rows then db.rows[j.row] else Row(0, if j.Consume? then j.limit else 0)
  }

  function Commit(db: Db, i: nat): Db
    requires i < |db.txs| && db.txs[i].pc.Recorded?
  {
    var Tx(j, pc) := db.txs[i];
    Goto(db.(rows := db.rows[j.row := pc.view],
             records := if pc.inserted then db.records[Id(j) := pc.view.used] else db.records),
         i, Committed(pc.view.used))
  }

  /** One action of the interleaving: a statement of transaction `i`, or its failure. */
  ghost predicate Next(db: Db, i: nat, e: Db) {
    i < |db.txs| && ((CanStep(db, i) && e == Step(db, i)) || (!Finished(db.txs[i].pc) && e == Goto(db, i, Failed)))
  }

  ghost predicate Reaches(db: Db, schedule: seq<nat>, states: seq<Db>) {
    && |states| == |schedule| + 1 && states[0] == db
    && forall k :: 0 <= k < |schedule| ==> Next(states[k], schedule[k], states[k + 1])
  }

  predicate Initial(db: Db) {
    && (forall i :: 0 <= i < |db.txs| ==> db.txs[i].pc == Begin)
    && (forall row :: row in db.rows ==> 0 <= db.rows[row].used)
  }

  // ---------- the invariant ----------

  /** At most one transaction holds a row, and at most one holds a record key. */
  ghost predicate Exclusive(db: Db) {
    && (forall i, j :: 0 <= i < j < |db.txs| && HoldsRow(db.txs[i]) && HoldsRow(db.txs[j])
          ==> db.txs[i].job.row != db.txs[j].job.row)
    && (forall i, j :: 0 <= i < j < |db.txs| && HoldsId(db.txs[i]) && HoldsId(db.txs[j])
          ==> Id(db.txs[i].job) != Id(db.txs[j].job))
  }

  /** A transaction's view of its row is the committed row with its own change, and nothing else. */
  predicate ViewIs(base: Row, t: Tx)
    requires HasView(t.pc)
  {
    match t.job
    case Consume(_, _, _, amount, _) =>
      amount > 0 && (if t.pc.Locked? then t.pc.view == base
                     else t.pc.view == base.(used := base.used + amount) && Ledger.Fits(base.limit, t.pc.view.used))
    case Refund(_, _, _, amount) =>
      amount > 0 && (if t.pc.Locked? then t.pc.view == base
                     else t.pc.view == base.(used := if base.used < amount then 0 else base.used - amount))
    case TopUp(_, _, amount) => t.pc.Recorded? && t.pc.view == base.(limit := base.limit + amount)
  }

  predicate TxOk(db: Db, t: Tx) {
    && (t.pc.Ensured? ==> t.job.Consume? && t.job.amount > 0 && (t.pc.created <==> t.job.row !in db.rows))
    && (t.pc.Checked? && !t.job.TopUp? ==> t.job.amount > 0)
    && (HasView(t.pc) ==> ViewIs(Base(db, t.job), t))
    && (HasView(t.pc) && t.job.Refund? ==> t.job.row in db.rows)
    && (HoldsId(t) ==> Id(t.job) !in db.records)
    && (t.pc.Rechecked? ==> t.job.key != "" && !t.job.TopUp?)
    && (t.pc.Recorded? && t.pc.inserted ==> t.job.key != "")
    && (t.pc.Recorded? && t.job.TopUp? ==> (t.pc.inserted <==> t.job.key != ""))
    && (t.pc.Recorded? && !t.job.TopUp? && t.job.key != "" && !t.pc.inserted ==> Id(t.job) in db.records)
    && (t.pc.Committed? && t.job.key != "" ==> Id(t.job) in db.records)
    && (t.pc.Replayed? ==> t.job.key != "" && Id(t.job) in db.records && db.records[Id(t.job)] == t.pc.answer)
    && (t.pc.Committed? && !t.job.TopUp? ==> t.job.amount > 0)
  }

  ghost predicate Inv(db: Db) {
    && Exclusive(db)
    && (forall i :: 0 <= i < |db.txs| ==> TxOk(db, db.txs[i]))
    && (forall row :: row in db.rows ==> 0 <= db.rows[row].used)
  }

  /** A move inside a transaction that commits nothing: local, if it keeps the transaction's own facts
      and takes no lock that is held. */
  lemma LocalMove(db: Db, i: nat, pc: Pc)
    requires i < |db.txs| && Inv(db)
    requires !pc.Committed? && !db.txs[i].pc.Committed?
    requires TxOk(db, db.txs[i].(pc := pc))
    requires HoldsRow(db.txs[i].(pc := pc)) ==> HoldsRow(db.txs[i]) || RowFree(db, i)
    requires HoldsId(db.txs[i].(pc := pc)) ==> HoldsId(db.txs[i]) || IdFree(db, i)
    ensures Inv(Goto(db, i, pc))
  {
    hide TxOk;
    var e := Goto(db, i, pc);
    forall k | 0 <= k < |e.txs| ensures TxOk(e, e.txs[k]) {
      SameFacts(db, e, e.txs[k]);
    }
  }

  lemma SameFacts(db: Db, e: Db, t: Tx)
    requires e.rows == db.rows && e.records == db.records
    ensures TxOk(e, t) == TxOk(db, t)
  {
  }

  lemma CommitInv(db: Db, i: nat)
    requires i < |db.txs| && Inv(db) && db.txs[i].pc.Recorded?
    ensures Inv(Commit(db, i))
  {
    var e := Commit(db, i);
    var t := db.txs[i];
    var row := t.job.row;
    assert TxOk(db, t);
    CommitterFacts(db, i);
    forall k | 0 <= k < |e.txs| ensures TxOk(e, e.txs[k]) {
      if k != i {
        assert TxOk(db, db.txs[k]);
        assert HoldsRow(db.txs[k]) ==> db.txs[k].job.row != row;
        assert HoldsId(t) && HoldsId(db.txs[k]) ==> Id(db.txs[k].job) != Id(t.job);
        OthersKeepFacts(db, i, db.txs[k]);
      }
    }
    hide TxOk, Base, ViewIs;
  }

  lemma OthersKeepFacts(db: Db, i: nat, u: Tx)
    requires i < |db.txs| && db.txs[i].pc.Recorded? && TxOk(db, db.txs[i]) && TxOk(db, u)
    requires HoldsRow(u) ==> u.job.row != db.txs[i].job.row
    requires HoldsId(db.txs[i]) && HoldsId(u) ==> Id(u.job) != Id(db.txs[i].job)
    ensures TxOk(Commit(db, i), u)
  {
    var e := Commit(db, i);
    assert HasView(u.pc) ==> Base(e, u.job) == Base(db, u.job);
  }

  lemma CommitterFacts(db: Db, i: nat)
    requires i < |db.txs| && db.txs[i].pc.Recorded? && TxOk(db, db.txs[i])
    requires 0 <= Base(db, db.txs[i].job).used
    ensures 0 <= db.txs[i].pc.view.used
    ensures TxOk(Commit(db, i), Commit(db, i).txs[i])
  {
  }

  /** A refund that finds no row records its key and commits without an effect. */
  lemma EmptyRefundInv(db: Db, i: nat)
    requires i < |db.txs| && Inv(db) && CanStep(db, i)
    requires db.txs[i].pc.Checked? && db.txs[i].job.Refund? && db.txs[i].job.row !in db.rows
    ensures Inv(Step(db, i))
  {
    var e := Step(db, i);
    var t := db.txs[i];
    assert TxOk(db, t);
    assert e.rows == db.rows && HoldsId(t) == false;
    forall k | 0 <= k < |e.txs| ensures TxOk(e, e.txs[k]) {
      if k != i {
        assert TxOk(db, db.txs[k]);
        MoreRecords(db, e, Id(t.job), db.txs[k]);
      }
    }
    hide TxOk, Base, Step, CanStep;
  }

  lemma MoreRecords(db: Db, e: Db, id: RecordId, u: Tx)
    requires e.rows == db.rows && TxOk(db, u) && !(HoldsId(u) && Id(u.job) == id && id !in db.records)
    requires e.records == db.records || (id !in db.records && e.records == db.records[id := 0])
    ensures TxOk(e, u)
  {
    assert Base(e, u.job) == Base(db, u.job);
  }

  /** Every action of every transaction keeps the invariant. */
  lemma NextInv(db: Db, i: nat, e: Db)
    requires Inv(db) && Next(db, i, e)
    ensures Inv(e)
  {
    var t := db.txs[i];
    assert TxOk(db, t);
    if !Finished(t.pc) && e == Goto(db, i, Failed) {
      LocalMove(db, i, Failed);
    } else if t.pc.Recorded? {
      CommitInv(db, i);
    } else if t.pc.Checked? && t.job.Refund? && t.job.row !in db.rows {
      EmptyRefundInv(db, i);
    } else {
      var pc := StepIsLocal(db, i);
      hide Step, CanStep, TxOk;
      LocalMove(db, i, pc);
    }
  }

  lemma StepIsLocal(db: Db, i: nat) returns (pc: Pc)
    requires i < |db.txs| && CanStep(db, i) && TxOk(db, db.txs[i])
    requires !db.txs[i].pc.Recorded?
    requires db.txs[i].pc.Checked? && db.txs[i].job.Refund? ==> db.txs[i].job.row in db.rows
    ensures Step(db, i) == Goto(db, i, pc) && !pc.Committed? && TxOk(db, db.txs[i].(pc := pc))
    ensures HoldsRow(db.txs[i].(pc := pc)) ==> HoldsRow(db.txs[i]) || RowFree(db, i)
    ensures HoldsId(db.txs[i].(pc := pc)) ==> HoldsId(db.txs[i]) || IdFree(db, i)
  {
    pc := Step(db, i).txs[i].pc;
  }

  lemma JobsFixed(db: Db, i: nat, e: Db)
    requires Next(db, i, e)
    ensures i < |db.txs|
    ensures |e.txs| == |db.txs| && forall k :: 0 <= k < |db.txs| ==> e.txs[k].job == db.txs[k].job
  {
  }

  lemma {:induction false} RunInv(db: Db, schedule: seq<nat>, states: seq<Db>, k: nat)
    requires Initial(db) && Reaches(db, schedule, states) && k < |states|
    ensures Inv(states[k]) && |states[k].txs| == |db.txs|
    ensures forall i :: 0 <= i < |db.txs| ==> states[k].txs[i].job == db.txs[i].job
  {
    if k > 0 {
      RunInv(db, schedule, states, k - 1);
      hide Inv, Step, CanStep;
      assert Next(states[k - 1], schedule[k - 1], states[k - 1 + 1]);
      NextInv(states[k - 1], schedule[k - 1], states[k]);
      JobsFixed(states[k - 1], schedule[k - 1], states[k]);
    }
  }

  lemma RunNext(db: Db, schedule: seq<nat>, states: seq<Db>, k: nat)
    requires Initial(db) && Reaches(db, schedule, states) && k < |schedule|
    ensures Inv(states[k]) && Next(states[k], schedule[k], states[k + 1])
  {
    RunInv(db, schedule, states, k);
    hide Inv, Next;
  }

  // ---------- what holds in every interleaving ----------

  function UsedIn(rows: map<string, Row>, row: string): int {
    if row in rows then rows[row].used else 0
  }

  function LimitIn(rows: map<string, Row>, row: string): int {
    if row in rows then rows[row].limit else 0
  }

  function Charge(t: Tx, row: string): int {
    if t.pc.Committed? && t.job.Consume? && t.job.row == row then t.job.amount else 0
  }

  function TopUpOf(t: Tx, row: string): int {
    if t.pc.Committed? && t.job.TopUp? && t.job.row == row then t.job.amount else 0
  }

  /** The amounts of the committed consumptions of a row, and of its committed top-ups. */
  function Charged(txs: seq<Tx>, row: string): int {
    if txs == [] then 0 else Charge(txs[0], row) + Charged(txs[1..], row)
  }

  function ToppedUp(txs: seq<Tx>, row: string): int {
    if txs == [] then 0 else TopUpOf(txs[0], row) + ToppedUp(txs[1..], row)
  }

  /** The action commits transaction `i`. */
  predicate Commits(db: Db, i: nat, e: Db, row: string) {
    i < |db.txs| && i < |e.txs| && !db.txs[i].pc.Committed? && e.txs[i].pc.Committed? && e.txs[i].job.row == row
  }

  /** What a committing refund gives back: as much of its amount as the committed row has used. */
  function GivenBack(db: Db, i: nat, e: Db, row: string): int {
    if Commits(db, i, e, row) && e.txs[i].job.Refund?
    then (if UsedIn(db.rows, row) < e.txs[i].job.amount then UsedIn(db.rows, row) else e.txs[i].job.amount)
    else 0
  }

  /** The limit with which a committing consumption creates its row. */
  function Opened(db: Db, i: nat, e: Db, row: string): int {
    if Commits(db, i, e, row) && e.txs[i].job.Consume? && row !in db.rows then e.txs[i].job.limit else 0
  }

  /** The same, summed over the first `k` actions of a run. */
  function TotalGivenBack(schedule: seq<nat>, states: seq<Db>, k: nat, row: string): int
    requires k <= |schedule| && |states| == |schedule| + 1
  {
    if k == 0 then 0
    else TotalGivenBack(schedule, states, k - 1, row) + GivenBack(states[k - 1], schedule[k - 1], states[k], row)
  }

  function TotalOpened(schedule: seq<nat>, states: seq<Db>, k: nat, row: string): int
    requires k <= |schedule| && |states| == |schedule| + 1
  {
    if k == 0 then 0
    else TotalOpened(schedule, states, k - 1, row) + Opened(states[k - 1], schedule[k - 1], states[k], row)
  }

  lemma {:induction false} SumUpdate(txs: seq<Tx>, i: nat, t: Tx, row: string)
    requires i < |txs|
    ensures Charged(txs[i := t], row) == Charged(txs, row) - Charge(txs[i], row) + Charge(t, row)
    ensures ToppedUp(txs[i := t], row) == ToppedUp(txs, row) - TopUpOf(txs[i], row) + TopUpOf(t, row)
  {
    if i == 0 {
      assert txs[i := t][1..] == txs[1..];
    } else {
      assert txs[i := t][1..] == txs[1..][i - 1 := t];
      SumUpdate(txs[1..], i - 1, t, row);
    }
  }

  lemma {:induction false} NothingCommitted(txs: seq<Tx>, row: string)
    requires forall i :: 0 <= i < |txs| ==> txs[i].pc == Begin
    ensures Charged(txs, row) == 0 && ToppedUp(txs, row) == 0
  {
    if txs != [] {
      NothingCommitted(txs[1..], row);
    }
  }

  /** What one action moves: a commit adds its own job's amount to the committed row, which nobody else
      can have changed since the transaction read it. */
  lemma NextMoves(db: Db, i: nat, e: Db, row: string)
    requires Inv(db) && Next(db, i, e)
    ensures UsedIn(e.rows, row)
            == UsedIn(db.rows, row) + Charge(e.txs[i], row) - Charge(db.txs[i], row) - GivenBack(db, i, e, row)
    ensures LimitIn(e.rows, row)
            == LimitIn(db.rows, row) + TopUpOf(e.txs[i], row) - TopUpOf(db.txs[i], row) + Opened(db, i, e, row)
    ensures db.rows.Keys <= e.rows.Keys && e.txs == db.txs[i := e.txs[i]]
    ensures row in db.rows ==> Opened(db, i, e, row) == 0
  {
    assert TxOk(db, db.txs[i]);
    var t := db.txs[i];
    if t.pc.Recorded? && e == Step(db, i) {
      assert ViewIs(Base(db, t.job), t);
    } else {
      assert e.rows == db.rows;
    }
  }

  /** From `first` to `e` a row moved by what committed: charges in, `given` back, limits up. */
  predicate Books(first: map<string, Row>, e: Db, row: string, given: int, created: int) {
    && UsedIn(e.rows, row) == UsedIn(first, row) + Charged(e.txs, row) - given
    && LimitIn(e.rows, row) == LimitIn(first, row) + ToppedUp(e.txs, row) + created
    && (row in first ==> row in e.rows && created == 0)
  }

  lemma NextKeepsBooks(first: map<string, Row>, db: Db, i: nat, e: Db, row: string, given: int, created: int)
    requires Inv(db) && Next(db, i, e) && Books(first, db, row, given, created)
    ensures Books(first, e, row, given + GivenBack(db, i, e, row), created + Opened(db, i, e, row))
  {
    NextMoves(db, i, e, row);
    SumUpdate(db.txs, i, e.txs[i], row);
    hide Inv, Next, GivenBack, Opened, UsedIn, LimitIn, Charged, ToppedUp, Charge, TopUpOf;
  }

  lemma NothingBooked(db: Db, schedule: seq<nat>, states: seq<Db>, row: string)
    requires Initial(db) && Reaches(db, schedule, states)
    ensures Books(db.rows, states[0], row, 0, 0)
  {
    NothingCommitted(db.txs, row);
  }

  /** No lost update: a row's used amount is its first value, plus the amounts of all committed
      consumptions, less what each committed refund found to give back when it committed.  Its limit is
      its first value plus the amounts of all committed top-ups, where a consumption that creates the row
      brings the limit of its request. */
  lemma {:induction false} NoLostUpdate(db: Db, schedule: seq<nat>, states: seq<Db>, k: nat, row: string)
    requires Initial(db) && Reaches(db, schedule, states) && k <= |schedule| && |states| == |schedule| + 1
    ensures Books(db.rows, states[k], row, TotalGivenBack(schedule, states, k, row),
                  TotalOpened(schedule, states, k, row))
  {
    hide Inv, Next, Initial, Reaches, Books, GivenBack, Opened;
    if k == 0 {
      NothingBooked(db, schedule, states, row);
    } else {
      NoLostUpdate(db, schedule, states, k - 1, row);
      RunNext(db, schedule, states, k - 1);
      NextKeepsBooks(db.rows, states[k - 1], schedule[k - 1], states[k], row,
                     TotalGivenBack(schedule, states, k - 1, row), TotalOpened(schedule, states, k - 1, row));
    }
  }

  /** No deadlock: while a transaction is unfinished, some transaction can go on. */
  lemma SomeoneCanStep(db: Db) returns (i: nat)
    requires Inv(db)
    requires exists k :: 0 <= k < |db.txs| && !Finished(db.txs[k].pc)
    ensures i < |db.txs| && !Finished(db.txs[i].pc) && CanStep(db, i)
  {
    assert forall k :: 0 <= k < |db.txs| ==> TxOk(db, db.txs[k]);
    if k :| 0 <= k < |db.txs| && HasView(db.txs[k].pc) && !db.txs[k].pc.Rechecked? {
      i := k;
    } else if k :| 0 <= k < |db.txs| && (db.txs[k].pc.Rechecked? || db.txs[k].pc == Ensured(true)) {
      i := k;
    } else if k :| 0 <= k < |db.txs| && (db.txs[k].pc.Ensured? || db.txs[k].pc.Checked?) {
      i := k;
    } else {
      i :| 0 <= i < |db.txs| && !Finished(db.txs[i].pc);
    }
  }

  /** Limits of rows that top-ups name are not "unlimited", and top-ups add. */
  predicate TopUpsSafe(db: Db) {
    forall i, j :: 0 <= i < |db.txs| && 0 <= j < |db.txs| && db.txs[i].job.TopUp? ==>
      && db.txs[i].job.amount >= 0
      && (db.txs[j].job.Consume? && db.txs[j].job.row == db.txs[i].job.row ==> db.txs[j].job.limit >= 0)
      && (db.txs[i].job.row in db.rows ==> db.rows[db.txs[i].job.row].limit >= 0)
  }

  predicate RowsFit(db: Db) {
    forall row :: row in db.rows ==> Ledger.Fits(db.rows[row].limit, db.rows[row].used)
  }

  lemma NextFits(db: Db, i: nat, e: Db)
    requires Inv(db) && Next(db, i, e) && RowsFit(db) && TopUpsSafe(db)
    ensures RowsFit(e) && TopUpsSafe(e)
  {
    var t := db.txs[i];
    assert TxOk(db, t);
    JobsFixed(db, i, e);
    if t.pc.Recorded? && e == Step(db, i) {
      var base := Base(db, t.job);
      assert ViewIs(base, t);
      assert t.job.TopUp? ==> base.limit >= 0;
      assert Ledger.Fits(t.pc.view.limit, t.pc.view.used);
      assert e.rows == db.rows[t.job.row := t.pc.view];
      forall k | 0 <= k < |e.txs| && e.txs[k].job.TopUp? && e.txs[k].job.row in e.rows
        ensures e.rows[e.txs[k].job.row].limit >= 0
      {
        assert db.txs[k].job.TopUp? && db.txs[i].job == t.job;
      }
    } else {
      assert e.rows == db.rows;
    }
  }

  /** Never over the limit: if every row starts within its limit, every row stays within it. */
  lemma {:induction false} NeverOverLimit(db: Db, schedule: seq<nat>, states: seq<Db>, k: nat)
    requires Initial(db) && RowsFit(db) && TopUpsSafe(db) && Reaches(db, schedule, states) && k < |states|
    ensures RowsFit(states[k]) && TopUpsSafe(states[k])
  {
    if k > 0 {
      NeverOverLimit(db, schedule, states, k - 1);
      RunInv(db, schedule, states, k - 1);
      hide Inv, Step, CanStep, RowsFit, TopUpsSafe;
      assert Next(states[k - 1], schedule[k - 1], states[k - 1 + 1]);
      NextFits(states[k - 1], schedule[k - 1], states[k]);
    }
  }

  // ---------- exactly once ----------

  /** All consumptions with one idempotency key name the same usage row. */
  predicate SameRowFor(db: Db, id: RecordId) {
    forall i, j :: 0 <= i < j < |db.txs| && ConsumesWith(db.txs[i].job, id) && ConsumesWith(db.txs[j].job, id)
                   ==> db.txs[i].job.row == db.txs[j].job.row
  }

  predicate ConsumesWith(j: Job, id: RecordId) {
    j.Consume? && j.key != "" && Id(j) == id
  }

  predicate Effective(t: Tx, id: RecordId) {
    t.pc.Committed? && t.job.key != "" && !t.job.Refund? && Id(t.job) == id
  }

  /** A consumption past its second look at the records still has its key to itself. */
  predicate FreshAfterRecheck(db: Db, id: RecordId) {
    forall i :: 0 <= i < |db.txs| && ConsumesWith(db.txs[i].job, id)
                && (db.txs[i].pc.Rechecked? || db.txs[i].pc.Recorded?)
                ==> id !in db.records
  }

  /** Of the consumptions and top-ups with one key, at most one took effect, and none if the key was on
      record from the start; the answer it gave is the one on record. */
  ghost predicate Once(db: Db, id: RecordId, known: bool) {
    && (forall i, j :: 0 <= i < j < |db.txs| ==> !(Effective(db.txs[i], id) && Effective(db.txs[j], id)))
    && (forall i :: 0 <= i < |db.txs| && Effective(db.txs[i], id) ==>
          !known && id in db.records && (db.txs[i].job.Consume? ==> db.records[id] == db.txs[i].pc.newUsed))
    && (known ==> id in db.records)
  }

  /** What one action does to the records, and to a consumption past its second look at them. */
  lemma RecordStep(db: Db, i: nat, e: Db)
    requires Next(db, i, e) && TxOk(db, db.txs[i])
    ensures |e.txs| == |db.txs| && forall k :: 0 <= k < |e.txs| && k != i ==> e.txs[k] == db.txs[k]
    ensures var t, u := db.txs[i], e.txs[i];
            && u.job == t.job && !Finished(t.pc)
            && (forall id :: id in e.records && id !in db.records ==>
                  id == Id(t.job) && (t.job.Consume? ==> HoldsRow(t)))
            && (t.job.Consume? && t.job.key != "" && (u.pc.Rechecked? || u.pc.Recorded?) ==>
                  e.records == db.records && (t.pc.Rechecked? || t.pc.Recorded? || Id(t.job) !in db.records))
  {
  }

  lemma NextFresh(db: Db, i: nat, e: Db, id: RecordId)
    requires Inv(db) && Next(db, i, e) && SameRowFor(db, id) && FreshAfterRecheck(db, id)
    ensures SameRowFor(e, id) && FreshAfterRecheck(e, id)
  {
    JobsFixed(db, i, e);
    assert TxOk(db, db.txs[i]);
    RecordStep(db, i, e);
    assert Exclusive(db);
    RecordsHaveTheirKind(db, i, e);
    hide Next, TxOk, Inv;
    forall k | 0 <= k < |e.txs| && ConsumesWith(e.txs[k].job, id) && (e.txs[k].pc.Rechecked? || e.txs[k].pc.Recorded?)
      ensures id !in e.records
    {
      if k != i {
        assert HoldsRow(db.txs[k]);
      }
    }
  }

  /** A record with a consumption's key is only made by a consumption with a key. */
  lemma RecordsHaveTheirKind(db: Db, i: nat, e: Db)
    requires Next(db, i, e) && TxOk(db, db.txs[i])
    ensures forall id :: id in e.records && id !in db.records ==> db.txs[i].job.key != "" && Id(db.txs[i].job) == id
  {
  }

  /** The action that makes a transaction take effect is the commit that inserts its key. */
  lemma EffectIsCommit(db: Db, i: nat, e: Db, id: RecordId)
    requires Next(db, i, e) && TxOk(db, db.txs[i]) && FreshAfterRecheck(db, id) && Effective(e.txs[i], id)
    ensures id !in db.records && id in e.records
    ensures e.txs[i].job.Consume? ==> e.records[id] == e.txs[i].pc.newUsed
  {
    var t := db.txs[i];
    assert !Finished(t.pc);
    assert t.pc.Recorded? && e == Commit(db, i);
    assert id !in db.records && t.pc.inserted;
    hide FreshAfterRecheck, Next, TxOk, Base;
  }

  lemma NextOnce(db: Db, i: nat, e: Db, id: RecordId, known: bool)
    requires Inv(db) && Next(db, i, e) && FreshAfterRecheck(db, id) && Once(db, id, known)
    ensures Once(e, id, known)
  {
    JobsFixed(db, i, e);
    assert TxOk(db, db.txs[i]);
    RecordsOnlyGrow(db, i, e);
    RecordStep(db, i, e);
    if Effective(e.txs[i], id) {
      EffectIsCommit(db, i, e, id);
    }
    hide Next, TxOk, Inv, FreshAfterRecheck, Effective, HoldsRow;
    forall k | 0 <= k < |db.txs| && k != i && Effective(e.txs[k], id)
      ensures e.txs[k] == db.txs[k] && Effective(db.txs[k], id)
    {
    }
  }

  lemma RecordsOnlyGrow(db: Db, i: nat, e: Db)
    requires Next(db, i, e) && TxOk(db, db.txs[i])
    ensures forall id :: id in db.records ==> id in e.records && e.records[id] == db.records[id]
  {
  }

  /** Exactly once: in every interleaving of concurrent transactions, whichever fail, a key charges or
      tops up at most once. */
  lemma {:induction false} ExactlyOnce(db: Db, schedule: seq<nat>, states: seq<Db>, k: nat, id: RecordId)
    requires Initial(db) && SameRowFor(db, id) && Reaches(db, schedule, states) && k < |states|
    ensures SameRowFor(states[k], id) && FreshAfterRecheck(states[k], id) && Once(states[k], id, id in db.records)
  {
    if k > 0 {
      ExactlyOnce(db, schedule, states, k - 1, id);
      RunInv(db, schedule, states, k - 1);
      hide Inv, Step, CanStep, SameRowFor, FreshAfterRecheck, Once;
      assert Next(states[k - 1], schedule[k - 1], states[k - 1 + 1]);
      NextFresh(states[k - 1], schedule[k - 1], states[k], id);
      NextOnce(states[k - 1], schedule[k - 1], states[k], id, id in db.records);
    }
  }
}
