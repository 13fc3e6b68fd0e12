/** What PostgreSQL transactions get done: the outcome of each kind of transaction that runs alone, the only
    reasons for which one is refused or answered from the records in any interleaving, and that every run ends. */
module PostgresProgress {
  import opened Postgres
  import opened PostgresRaces
  import Ledger

  /** Only transaction `i` has moved. */
  predicate OnlyMoved(db: Db, h: History, i: nat) {
    && h.states != [] && i < |db.txs| == |h.Last().txs|
    && h.Last().txs == db.txs[i := Tx(db.txs[i].job, h.Last().txs[i].pc)]
    && forall k :: 0 <= k < |h.schedule| ==> h.schedule[k] == i
  }

  function Keyed(records: map<RecordId, int>, j: Job, answer: int): map<RecordId, int> {
    if j.key == "" then records else records[Id(j) := answer]
  }

  /** A consumption alone, with a key or without: it is answered from the records when its key is there, refused
      when its row has no room, and otherwise commits its amount to its row, and its key. */
  lemma ConsumeAlone(db: Db, i: nat) returns (h: History)
    requires Initial(db) && i < |db.txs| && db.txs[i].job.Consume?
    ensures OnlyMoved(db, h, i) && h.From(db)
    ensures var j, e := db.txs[i].job, h.Last();
            var used := (if j.row in db.rows then db.rows[j.row].used else 0) + j.amount;
            var limit := if j.row in db.rows then db.rows[j.row].limit else j.limit;
            if j.amount > 0 && j.key != "" && Id(j) in db.records
            then e.txs[i].pc == Replayed(db.records[Id(j)]) && e.rows == db.rows && e.records == db.records
            else if j.amount <= 0 || (limit != -1 && used > limit)
            then e.txs[i].pc == Refused && e.rows == db.rows && e.records == db.records
            else e.txs[i].pc == Committed(used) && e.rows == db.rows[j.row := Row(used, limit)]
                 && e.records == Keyed(db.records, j, used)
  {
    h := History([], [db]);
    var j := db.txs[i].job;
    if j.amount <= 0 || (j.key != "" && Id(j) in db.records) {
      h := Extend(db, h, i);
    } else {
      h := ConsumeUpToLock(db, h, i);
      h := LockedToEnd(db, h, i);
    }
  }

  lemma LockedToEnd(db: Db, h: History, i: nat) returns (g: History)
    requires h.From(db) && OnlyMoved(db, h, i) && Initial(db)
    requires var j := db.txs[i].job;
             && j.Consume? && h.Last() == Goto(db, i, Locked(Base(db, j))) && (j.key == "" || Id(j) !in db.records)
    ensures g.From(db) && OnlyMoved(db, g, i)
    ensures var j, e := db.txs[i].job, g.Last(); var row := ChargedRow(db, j);
            if Ledger.Fits(row.limit, row.used)
            then e.txs[i].pc == Committed(row.used) && e.rows == db.rows[j.row := row]
                 && e.records == Keyed(db.records, j, row.used)
            else e.txs[i].pc == Refused && e.rows == db.rows && e.records == db.records
  {
    var j := db.txs[i].job;
    var row := ChargedRow(db, j);
    g := Extend(db, h, i);
    if Ledger.Fits(row.limit, row.used) {
      assert g.Last() == Goto(db, i, Updated(row));
      g := UpdatedToEnd(db, g, i, row);
    }
  }

  /** The rest of a transaction, once its row is updated. */
  lemma UpdatedToEnd(db: Db, h: History, i: nat, row: Row) returns (g: History)
    requires h.From(db) && OnlyMoved(db, h, i) && Initial(db) && !db.txs[i].job.TopUp?
    requires h.Last() == Goto(db, i, Updated(row)) && (db.txs[i].job.key == "" || Id(db.txs[i].job) !in db.records)
    ensures g.From(db) && OnlyMoved(db, g, i)
    ensures var j, e := db.txs[i].job, g.Last();
            && e.txs[i].pc == Committed(row.used) && e.rows == db.rows[j.row := row]
            && e.records == Keyed(db.records, j, row.used)
  {
    var keyed := db.txs[i].job.key != "";
    g := Extend(db, h, i);
    if keyed {
      assert g.Last() == Goto(db, i, Rechecked(row));
      g := Extend(db, g, i);
    }
    assert g.Last() == Goto(db, i, Recorded(row, keyed));
    g := Extend(db, g, i);
  }

  /** A refund alone: nothing for a known key, and otherwise as much of its amount as the row has used. */
  lemma RefundAlone(db: Db, i: nat) returns (h: History)
    requires Initial(db) && i < |db.txs| && db.txs[i].job.Refund?
    ensures OnlyMoved(db, h, i) && h.From(db)
    ensures var j, e := db.txs[i].job, h.Last();
            var used := if j.row in db.rows then db.rows[j.row].used else 0;
            var left := if used < j.amount then 0 else used - j.amount;
            if j.amount <= 0 then e.txs[i].pc == Refused && e.rows == db.rows && e.records == db.records
            else if j.key != "" && Id(j) in db.records
            then e.txs[i].pc == Replayed(db.records[Id(j)]) && e.rows == db.rows && e.records == db.records
            else e.txs[i].pc == Committed(left) && e.records == Keyed(db.records, j, left)
                 && e.rows == if j.row in db.rows then db.rows[j.row := Row(left, db.rows[j.row].limit)] else db.rows
  {
    h := History([], [db]);
    h := Extend(db, h, i);
    var j := db.txs[i].job;
    if j.amount > 0 && (j.key == "" || Id(j) !in db.records) {
      assert h.Last() == Goto(db, i, Checked);
      h := Extend(db, h, i);
      if j.row in db.rows {
        assert h.Last() == Goto(db, i, Locked(db.rows[j.row]));
        h := RefundLockedToEnd(db, h, i);
      }
    }
  }

  lemma RefundLockedToEnd(db: Db, h: History, i: nat) returns (g: History)
    requires h.From(db) && OnlyMoved(db, h, i) && Initial(db) && db.txs[i].job.Refund? && db.txs[i].job.row in db.rows
    requires h.Last() == Goto(db, i, Locked(db.rows[db.txs[i].job.row]))
    requires db.txs[i].job.key == "" || Id(db.txs[i].job) !in db.records
    ensures g.From(db) && OnlyMoved(db, g, i)
    ensures var j, e := db.txs[i].job, g.Last(); var row := db.rows[j.row];
            var left := if row.used < j.amount then 0 else row.used - j.amount;
            && e.txs[i].pc == Committed(left) && e.rows == db.rows[j.row := Row(left, row.limit)]
            && e.records == Keyed(db.records, j, left)
  {
    var j := db.txs[i].job;
    var row := db.rows[j.row];
    var less := Row(if row.used < j.amount then 0 else row.used - j.amount, row.limit);
    g := Extend(db, h, i);
    assert g.Last() == Goto(db, i, Updated(less));
    g := UpdatedToEnd(db, g, i, less);
  }

  /** A top-up alone: refused for a known key, and otherwise the limit rises and nothing else. */
  lemma TopUpAlone(db: Db, i: nat) returns (h: History)
    requires Initial(db) && i < |db.txs| && db.txs[i].job.TopUp?
    ensures OnlyMoved(db, h, i) && h.From(db)
    ensures var j, e := db.txs[i].job, h.Last();
            var row := if j.row in db.rows then db.rows[j.row] else Row(0, 0);
            if j.key != "" && Id(j) in db.records
            then e.txs[i].pc == Refused && e.rows == db.rows && e.records == db.records
            else e.txs[i].pc == Committed(row.used) && e.rows == db.rows[j.row := Row(row.used, row.limit + j.amount)]
                 && e.records == Keyed(db.records, j, row.used)
  {
    h := History([], [db]);
    h := Extend(db, h, i);
    var j := db.txs[i].job;
    if j.key == "" || Id(j) !in db.records {
      var row := if j.row in db.rows then db.rows[j.row] else Row(0, 0);
      assert h.Last() == Goto(db, i, Checked);
      h := Extend(db, h, i);
      assert h.Last() == Goto(db, i, Recorded(Row(row.used, row.limit + j.amount), j.key != ""));
      h := Extend(db, h, i);
    }
  }

  /** Keys are scoped: those of consumptions and of refunds to a user and to each other, those of top-ups to
      top-ups. */
  lemma KeysAreScoped(a: Job, b: Job)
    ensures Id(a) == Id(b) <==> a.key == b.key && ((a.TopUp? && b.TopUp?)
                                 || (a.Consume? && b.Consume? && a.user == b.user)
                                 || (a.Refund? && b.Refund? && a.user == b.user))
  {
  }

  // ---------- why a transaction is refused or answered from the records ----------

  /** A reason that was there when transaction `i` moved: it asked for nothing, its locked row had no room, or
      the key of its top-up was on record. */
  predicate ReasonToRefuse(db: Db, i: nat)
    requires i < |db.txs|
  {
    var Tx(j, pc) := db.txs[i];
    match j
    case Consume(_, _, row, amount, limit) =>
      (pc.Begin? && amount <= 0)
      || (pc.Locked? && pc.view == (if row in db.rows then db.rows[row] else Row(0, limit))
          && pc.view.limit != -1 && pc.view.used + amount > pc.view.limit)
    case Refund(_, _, _, amount) => pc.Begin? && amount <= 0
    case TopUp(key, _, _) => pc.Begin? && key != "" && Id(j) in db.records
  }

  predicate ReasonToReplay(db: Db, i: nat, answer: int)
    requires i < |db.txs|
  {
    var j := db.txs[i].job;
    !j.TopUp? && j.key != "" && Id(j) in db.records && db.records[Id(j)] == answer
  }

  lemma NextGivesReason(db: Db, i: nat, e: Db)
    requires Inv(db) && Next(db, i, e) && e.txs[i].pc != db.txs[i].pc
    ensures e.txs[i].pc.Refused? ==> ReasonToRefuse(db, i)
    ensures e.txs[i].pc.Replayed? ==> ReasonToReplay(db, i, e.txs[i].pc.answer)
  {
    assert TxOk(db, db.txs[i]);
  }

  /** In every interleaving a transaction is refused, or answered from the records, only for its reason: there
      was an action of its own at which the reason held. */
  lemma {:induction false} RefusedForAReason(db: Db, schedule: seq<nat>, states: seq<Db>, k: nat, i: nat)
    returns (m: nat)
    requires Initial(db) && Reaches(db, schedule, states) && k <= |schedule| && |states| == |schedule| + 1
    requires i < |states[k].txs| && (states[k].txs[i].pc.Refused? || states[k].txs[i].pc.Replayed?)
    ensures m < k && schedule[m] == i && i < |states[m].txs|
    ensures states[k].txs[i].pc.Refused? ==> ReasonToRefuse(states[m], i)
    ensures states[k].txs[i].pc.Replayed? ==> ReasonToReplay(states[m], i, states[k].txs[i].pc.answer)
  {
    hide *;
    AllBegin(db, schedule, states);
    RunNext(db, schedule, states, k - 1);
    OthersStay(states[k - 1], schedule[k - 1], states[k]);
    if schedule[k - 1] == i && states[k].txs[i].pc != states[k - 1].txs[i].pc {
      NextGivesReason(states[k - 1], i, states[k]);
      m := k - 1;
    } else {
      m := RefusedForAReason(db, schedule, states, k - 1, i);
    }
  }

  lemma AllBegin(db: Db, schedule: seq<nat>, states: seq<Db>)
    requires Initial(db) && Reaches(db, schedule, states)
    ensures forall i :: 0 <= i < |states[0].txs| ==> states[0].txs[i].pc.Begin?
  {
  }

  lemma OthersStay(db: Db, i: nat, e: Db)
    requires Next(db, i, e)
    ensures i < |db.txs| == |e.txs| && forall k :: 0 <= k < |e.txs| && k != i ==> e.txs[k] == db.txs[k]
  {
  }

  // ---------- every run ends ----------

  /** How many actions a transaction has at most before it. */
  function Rank(pc: Pc): (r: nat)
    ensures r <= 7 && (r == 0 <==> Finished(pc))
  {
    match pc
    case Begin => 7
    case Checked => 6
    case Ensured(_) => 5
    case Locked(_) => 4
    case Updated(_) => 3
    case Rechecked(_) => 2
    case Recorded(_, _) => 1
    case _ => 0
  }

  function Remaining(txs: seq<Tx>): (n: nat)
    ensures n <= 7 * |txs|
  {
    if txs == [] then 0 else Rank(txs[0].pc) + Remaining(txs[1..])
  }

  lemma {:induction false} RemainingUpdate(txs: seq<Tx>, i: nat, t: Tx)
    requires i < |txs|
    ensures Remaining(txs[i := t]) == Remaining(txs) - Rank(txs[i].pc) + Rank(t.pc)
  {
    if i == 0 {
      assert txs[i := t][1..] == txs[1..];
    } else {
      assert txs[i := t][1..] == txs[1..][i - 1 := t];
      RemainingUpdate(txs[1..], i - 1, t);
    }
  }

  lemma NextProgresses(db: Db, i: nat, e: Db)
    requires Next(db, i, e)
    ensures |e.txs| == |db.txs| && Remaining(e.txs) < Remaining(db.txs)
  {
    RankFalls(db, i, e);
    RemainingUpdate(db.txs, i, e.txs[i]);
    hide *;
  }

  lemma RankFalls(db: Db, i: nat, e: Db)
    requires Next(db, i, e)
    ensures i < |db.txs| == |e.txs| && e.txs == db.txs[i := e.txs[i]] && Rank(e.txs[i].pc) < Rank(db.txs[i].pc)
  {
    var t := db.txs[i];
    if e == Goto(db, i, Failed) {
      hide Step, CanStep;
    } else if t.pc.Recorded? {
      hide CanStep, Base;
    } else {
      hide CanStep, Commit;
    }
  }

  /** No run is longer than seven actions for each transaction. */
  lemma {:induction false} RunsAreShort(db: Db, schedule: seq<nat>, states: seq<Db>, k: nat)
    requires Initial(db) && Reaches(db, schedule, states) && k < |states|
    ensures k + Remaining(states[k].txs) <= Remaining(db.txs) <= 7 * |db.txs|
  {
    if k > 0 {
      RunsAreShort(db, schedule, states, k - 1);
      RunNext(db, schedule, states, k - 1);
      hide Reaches, Initial, Inv, Next;
      NextProgresses(states[k - 1], schedule[k - 1], states[k]);
    }
  }

  lemma {:induction false} SomeoneUnfinished(txs: seq<Tx>)
    requires Remaining(txs) > 0
    ensures exists k :: 0 <= k < |txs| && !Finished(txs[k].pc)
  {
    if Rank(txs[0].pc) == 0 {
      SomeoneUnfinished(txs[1..]);
      var k :| 0 <= k < |txs[1..]| && !Finished(txs[1..][k].pc);
      assert !Finished(txs[k + 1].pc);
    }
  }

  lemma {:induction false} AllFinished(txs: seq<Tx>)
    requires Remaining(txs) == 0
    ensures forall k :: 0 <= k < |txs| ==> Finished(txs[k].pc)
  {
    if txs != [] {
      AllFinished(txs[1..]);
    }
  }

  /** Wherever a run stands, it can go on without a failure until every transaction is finished. */
  lemma RunCanEnd(db: Db, h: History) returns (g: History)
    requires Initial(db) && h.From(db)
    ensures g.From(db) && h.schedule <= g.schedule && h.states <= g.states
    ensures forall k :: 0 <= k < |g.Last().txs| ==> Finished(g.Last().txs[k].pc)
    decreases Remaining(h.Last().txs)
  {
    RunInv(db, h.schedule, h.states, |h.schedule|);
    if Remaining(h.Last().txs) == 0 {
      AllFinished(h.Last().txs);
      g := h;
    } else {
      SomeoneUnfinished(h.Last().txs);
      var i := SomeoneCanStep(h.Last());
      var next := Extend(db, h, i);
      NextProgresses(h.Last(), i, next.Last());
      hide Reaches, Inv, Step, CanStep, Initial;
      g := RunCanEnd(db, next);
    }
  }
}
