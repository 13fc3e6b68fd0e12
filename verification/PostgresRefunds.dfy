/** Refunds in PostgreSQL: the interleavings in which one key commits two refunds, or gives back twice, and
    the exact conditions under which some interleaving does that. */
module PostgresRefunds {
  import opened Postgres
  import opened PostgresRaces

  predicate RefundsWith(j: Job, id: RecordId) {
    j.Refund? && j.key != "" && Id(j) == id
  }

  /** What a refund does to the rows that are there when it commits. */
  function AfterRefund(rows: map<string, Row>, j: Job): map<string, Row> {
    if j.row !in rows then rows
    else rows[j.row := rows[j.row].(used := if rows[j.row].used < j.amount then 0 else rows[j.row].used - j.amount)]
  }

  /** Action `k` of a run is the commit of transaction `i`'s refund, and gives something back. */
  predicate GivesAt(h: History, k: int, i: nat) {
    && 0 <= k < |h.schedule| && k + 1 < |h.states| && h.schedule[k] == i && i < |h.states[k].txs|
    && GivenBack(h.states[k], i, h.states[k + 1], h.states[k].txs[i].job.row) > 0
  }

  ghost predicate GivesBack(h: History, i: nat) {
    exists k :: GivesAt(h, k, i)
  }

  lemma RefundToRecorded(db: Db, h: History, i: nat) returns (g: History)
    requires h.From(db) && i < |h.Last().txs|
    requires var t := h.Last().txs[i];
             && t.pc == Checked && t.job.Refund? && t.job.key != "" && t.job.row in h.Last().rows
             && RowFree(h.Last(), i) && IdFree(h.Last(), i)
    ensures g.From(db) && h.schedule <= g.schedule && h.states <= g.states
    ensures var d := h.Last(); var j := d.txs[i].job;
            g.Last() == Goto(d, i, Recorded(AfterRefund(d.rows, j)[j.row], Id(j) !in d.records))
  {
    var d := h.Last();
    var j := d.txs[i].job;
    var less := AfterRefund(d.rows, j)[j.row];
    g := Extend(db, h, i);
    assert g.Last() == Goto(d, i, Locked(d.rows[j.row]));
    g := Extend(db, g, i);
    assert g.Last() == Goto(d, i, Updated(less));
    g := Extend(db, g, i);
    assert g.Last() == Goto(d, i, Rechecked(less));
    g := Extend(db, g, i);
  }

  /** A refund that has looked at the records runs to its commit. */
  lemma RefundAfterCheck(db: Db, h: History, i: nat) returns (g: History)
    requires h.From(db) && i < |h.Last().txs|
    requires var t := h.Last().txs[i];
             t.pc == Checked && t.job.Refund? && t.job.key != "" && RowFree(h.Last(), i) && IdFree(h.Last(), i)
    ensures g.From(db) && |g.Last().txs| == |h.Last().txs|
    ensures g.Last().rows == AfterRefund(h.Last().rows, h.Last().txs[i].job)
    ensures g.Last().txs[i].pc.Committed? && g.Last().txs[i].job == h.Last().txs[i].job
    ensures forall k :: 0 <= k < |h.Last().txs| && k != i ==> g.Last().txs[k] == h.Last().txs[k]
    ensures h.schedule <= g.schedule && h.states <= g.states
    ensures var j := h.Last().txs[i].job;
            j.amount > 0 && UsedIn(h.Last().rows, j.row) > 0 ==> GivesAt(g, |g.schedule| - 1, i)
  {
    g := h;
    if h.Last().txs[i].job.row in h.Last().rows {
      g := RefundToRecorded(db, h, i);
    }
    g := Extend(db, g, i);
  }

  /** A refund looks at the records only once, before it locks the row: two overlapping refunds with one
      new key both commit, each taking what it finds. */
  lemma OneKeyTwoRefunds(db: Db, i: nat, j: nat, id: RecordId) returns (h: History)
    requires Initial(db) && i < |db.txs| && j < |db.txs| && i != j && id !in db.records
    requires RefundsWith(db.txs[i].job, id) && RefundsWith(db.txs[j].job, id)
    requires db.txs[i].job.amount > 0 && db.txs[j].job.amount > 0
    ensures h.states != [] && h.From(db) && |h.Last().txs| == |db.txs|
    ensures h.Last().txs[i].pc.Committed? && h.Last().txs[i].job == db.txs[i].job
    ensures h.Last().txs[j].pc.Committed? && h.Last().txs[j].job == db.txs[j].job
    ensures h.Last().rows == AfterRefund(AfterRefund(db.rows, db.txs[i].job), db.txs[j].job)
  {
    h := BothChecked(db, i, j, id);
    hide AfterRefund, Reaches, GivesAt;
    h := RefundAfterCheck(db, h, i);
    h := RefundAfterCheck(db, h, j);
  }

  /** Both have looked at the records, and neither has done anything else. */
  lemma BothChecked(db: Db, i: nat, j: nat, id: RecordId) returns (h: History)
    requires Initial(db) && i < |db.txs| && j < |db.txs| && i != j && id !in db.records
    requires RefundsWith(db.txs[i].job, id) && RefundsWith(db.txs[j].job, id)
    requires db.txs[i].job.amount > 0 && db.txs[j].job.amount > 0
    ensures h.states != [] && h.From(db) && h.Last() == Goto(Goto(db, i, Checked), j, Checked)
  {
    h := History([], [db]);
    h := Extend(db, h, i);
    assert h.Last() == Goto(db, i, Checked);
    h := Extend(db, h, j);
  }

  ghost predicate CanCommitTwice(db: Db, id: RecordId) {
    exists h: History, i: nat, j: nat :: h.From(db) && CommittedBoth(h, i, j, id)
  }

  predicate CommittedBoth(h: History, i: nat, j: nat, id: RecordId) {
    && h.states != []
    && i < j < |h.Last().txs| && RefundCommitted(h.Last().txs[i], id) && RefundCommitted(h.Last().txs[j], id)
  }

  /** The exact condition on what callers submit: some interleaving commits two refunds of one key if and only
      if the key is new and two refunds of a positive amount carry it. */
  lemma CommitsTwiceIff(db: Db, id: RecordId)
    requires Initial(db)
    ensures CanCommitTwice(db, id) <==>
              id !in db.records
              && exists i, j :: 0 <= i < j < |db.txs|
                                && RefundsWith(db.txs[i].job, id) && RefundsWith(db.txs[j].job, id)
                                && db.txs[i].job.amount > 0 && db.txs[j].job.amount > 0
  {
    if i, j :| 0 <= i < j < |db.txs| && RefundsWith(db.txs[i].job, id) && RefundsWith(db.txs[j].job, id)
               && db.txs[i].job.amount > 0 && db.txs[j].job.amount > 0 && id !in db.records {
      var h := OneKeyTwoRefunds(db, i, j, id);
      hide Reaches;
      assert CommittedBoth(h, i, j, id);
    }
    forall h: History, i: nat, j: nat | h.From(db) && CommittedBoth(h, i, j, id)
      ensures id !in db.records && j < |db.txs| && RefundsWith(db.txs[i].job, id) && RefundsWith(db.txs[j].job, id)
      ensures db.txs[i].job.amount > 0 && db.txs[j].job.amount > 0
    {
      CommittedWasNew(db, h, i, j, id);
    }
  }

  lemma CommittedWasNew(db: Db, h: History, i: nat, j: nat, id: RecordId)
    requires Initial(db) && h.From(db) && CommittedBoth(h, i, j, id)
    ensures id !in db.records && j < |db.txs| && RefundsWith(db.txs[i].job, id) && RefundsWith(db.txs[j].job, id)
    ensures db.txs[i].job.amount > 0 && db.txs[j].job.amount > 0
  {
    KnownStaysIdle(db, h.schedule, h.states, |h.schedule|, id);
    RunInv(db, h.schedule, h.states, |h.schedule|);
    hide Reaches, Inv, Initial;
    assert StaysIdle(h.Last().txs[i], id, id in db.records) && StaysIdle(h.Last().txs[j], id, id in db.records);
  }

  predicate Active(t: Tx, id: RecordId) {
    RefundsWith(t.job, id) && t.pc != Begin && !Finished(t.pc)
  }

  /** The refunds of one key do not overlap: while one is past its look at the records, no other is. */
  predicate Apart(db: Db, id: RecordId) {
    forall i, j :: 0 <= i < j < |db.txs| ==> !(Active(db.txs[i], id) && Active(db.txs[j], id))
  }

  predicate RefundCommitted(t: Tx, id: RecordId) {
    RefundsWith(t.job, id) && t.pc.Committed?
  }

  predicate RefundedOnce(db: Db, id: RecordId) {
    && (forall i, j :: 0 <= i < j < |db.txs| ==> !(RefundCommitted(db.txs[i], id) && RefundCommitted(db.txs[j], id)))
    && (forall i :: 0 <= i < |db.txs| && Active(db.txs[i], id) && !db.txs[i].pc.Recorded? ==> id !in db.records)
    && (forall i :: 0 <= i < |db.txs| && Active(db.txs[i], id) && db.txs[i].pc.Recorded? ==> db.txs[i].pc.inserted)
    && (forall i :: 0 <= i < |db.txs| && RefundCommitted(db.txs[i], id) ==> id in db.records)
  }

  /** The rule within one run: if the refunds with one key never overlap in it, at most one commits. */
  lemma {:induction false} RefundOnceWhenApart(db: Db, schedule: seq<nat>, states: seq<Db>, k: nat, id: RecordId)
    requires Initial(db) && Reaches(db, schedule, states) && k < |states|
    requires id.RefundId? && forall m :: 0 <= m < |states| ==> Apart(states[m], id)
    ensures RefundedOnce(states[k], id)
  {
    if k > 0 {
      RefundOnceWhenApart(db, schedule, states, k - 1, id);
      RunInv(db, schedule, states, k - 1);
      hide Inv, Step, CanStep, RefundedOnce, Apart;
      assert Next(states[k - 1], schedule[k - 1], states[k - 1 + 1]);
      NextRefundedOnce(states[k - 1], schedule[k - 1], states[k], id);
    }
  }

  /** What one action does to its own transaction, as far as refunds with key `id` are concerned. */
  lemma RefundStep(db: Db, i: nat, e: Db, id: RecordId)
    requires Next(db, i, e) && TxOk(db, db.txs[i]) && id.RefundId?
    ensures |e.txs| == |db.txs| && forall k :: 0 <= k < |e.txs| && k != i ==> e.txs[k] == db.txs[k]
    ensures var t, u := db.txs[i], e.txs[i];
            && !t.pc.Committed?
            && (RefundCommitted(u, id) ==> Active(t, id) && id in e.records)
            && (Active(u, id) && !Active(t, id) ==> u.pc.Checked? && id !in e.records)
            && (Active(u, id) && Active(t, id) ==>
                  (t.pc.Recorded? <==> u.pc == t.pc)
                  && (u.pc.Recorded? ==> u.pc == t.pc || (u.pc.inserted <==> id !in db.records)))
            && (id in e.records && id !in db.records ==> Active(t, id) && !Active(u, id))
  {
    var t := db.txs[i];
    assert !Finished(t.pc);
    if e != Goto(db, i, Failed) {
      assert e == Step(db, i);
      if !t.pc.Checked? && !t.pc.Recorded? {
        assert e.records == db.records;
      }
    }
  }

  lemma NextRefundedOnce(db: Db, i: nat, e: Db, id: RecordId)
    requires Inv(db) && Next(db, i, e) && Apart(db, id) && Apart(e, id) && RefundedOnce(db, id)
    requires id.RefundId?
    ensures RefundedOnce(e, id)
  {
    assert TxOk(db, db.txs[i]);
    RefundStep(db, i, e, id);
    RecordsOnlyGrow(db, i, e);
    ActiveRecordedIsNew(db, i, id);
    hide Next, Active, RefundCommitted, Inv, TxOk;
    var t := db.txs[i];
    assert Active(t, id) ==> id !in db.records;
    assert id in db.records ==> !Active(t, id);
    forall j, k | 0 <= j < |e.txs| && 0 <= k < |e.txs| && j != k
      ensures !(RefundCommitted(e.txs[j], id) && RefundCommitted(e.txs[k], id))
    {
      if k == i {
        assert e.txs[j] == db.txs[j];
      } else if j == i {
        assert e.txs[k] == db.txs[k];
      } else {
        assert e.txs[j] == db.txs[j] && e.txs[k] == db.txs[k];
      }
    }
    forall k | 0 <= k < |e.txs| && k != i && Active(db.txs[k], id) ensures !Active(t, id) {
    }
  }

  /** A refund that is about to commit the only insert of its key. */
  lemma ActiveRecordedIsNew(db: Db, i: nat, id: RecordId)
    requires i < |db.txs| && TxOk(db, db.txs[i]) && RefundedOnce(db, id) && id.RefundId?
    ensures Active(db.txs[i], id) ==> id !in db.records
  {
  }
  // ---------- refunds that give something back ----------

  function Min(a: int, b: int): int {
    if a < b then a else b
  }

  /** Both refunds find something, if the one of the smaller amount comes first. */
  predicate BothHaveToGive(db: Db, a: Job, b: Job) {
    && a.amount > 0 && b.amount > 0 && UsedIn(db.rows, a.row) > 0 && UsedIn(db.rows, b.row) > 0
    && (a.row == b.row ==> UsedIn(db.rows, a.row) > Min(a.amount, b.amount))
  }

  /** Two refunds with one new key, among any transactions: some interleaving gives back twice. */
  lemma OneKeyGivesBackTwice(db: Db, i: nat, j: nat, id: RecordId) returns (h: History)
    requires Initial(db) && i < |db.txs| && j < |db.txs| && i != j && id !in db.records
    requires RefundsWith(db.txs[i].job, id) && RefundsWith(db.txs[j].job, id)
    requires BothHaveToGive(db, db.txs[i].job, db.txs[j].job)
    ensures h.From(db) && GivesBack(h, i) && GivesBack(h, j)
  {
    if db.txs[i].job.amount <= db.txs[j].job.amount {
      h := SmallerFirst(db, i, j, id);
    } else {
      h := SmallerFirst(db, j, i, id);
    }
  }

  lemma SmallerFirst(db: Db, i: nat, j: nat, id: RecordId) returns (h: History)
    requires Initial(db) && i < |db.txs| && j < |db.txs| && i != j && id !in db.records
    requires RefundsWith(db.txs[i].job, id) && RefundsWith(db.txs[j].job, id)
    requires BothHaveToGive(db, db.txs[i].job, db.txs[j].job) && db.txs[i].job.amount <= db.txs[j].job.amount
    ensures h.From(db) && GivesBack(h, i) && GivesBack(h, j)
  {
    h := BothChecked(db, i, j, id);
    var g := RefundAfterCheck(db, h, i);
    h := RefundAfterCheck(db, g, j);
    hide Reaches, Initial;
    assert GivesAt(g, |g.schedule| - 1, i);
    assert GivesAt(h, |g.schedule| - 1, i);
  }

  /** No consumption of the transactions names a row of a refund with this key. */
  predicate NoChargeOn(db: Db, id: RecordId) {
    forall p, q :: 0 <= p < |db.txs| && 0 <= q < |db.txs| && RefundsWith(db.txs[p].job, id) && db.txs[q].job.Consume?
                   ==> db.txs[q].job.row != db.txs[p].job.row
  }

  ghost predicate CanGiveBackTwice(db: Db, id: RecordId) {
    exists h: History, i: nat, j: nat :: h.From(db) && GivesBackBoth(db, h, i, j, id)
  }

  ghost predicate GivesBackBoth(db: Db, h: History, i: nat, j: nat, id: RecordId) {
    && i < j < |db.txs| && RefundsWith(db.txs[i].job, id) && RefundsWith(db.txs[j].job, id)
    && GivesBack(h, i) && GivesBack(h, j)
  }

  /** The exact condition for a key to give back twice, where no consumption adds to the rows meanwhile: the
      key is new, and two refunds carry it that both find something to give back. */
  lemma GivesBackTwiceIff(db: Db, id: RecordId)
    requires Initial(db) && NoChargeOn(db, id)
    ensures CanGiveBackTwice(db, id) <==>
              id !in db.records
              && exists i, j :: 0 <= i < j < |db.txs|
                                && RefundsWith(db.txs[i].job, id) && RefundsWith(db.txs[j].job, id)
                                && BothHaveToGive(db, db.txs[i].job, db.txs[j].job)
  {
    hide Reaches, Initial, RefundsWith, BothHaveToGive, GivesBack, NoChargeOn;
    if i, j :| 0 <= i < j < |db.txs| && RefundsWith(db.txs[i].job, id) && RefundsWith(db.txs[j].job, id)
               && BothHaveToGive(db, db.txs[i].job, db.txs[j].job) && id !in db.records {
      var h := OneKeyGivesBackTwice(db, i, j, id);
      assert GivesBackBoth(db, h, i, j, id);
    }
    forall h: History, i: nat, j: nat | h.From(db) && GivesBackBoth(db, h, i, j, id)
      ensures id !in db.records && BothHaveToGive(db, db.txs[i].job, db.txs[j].job)
    {
      GaveBackBoth(db, h, i, j, id);
    }
  }

  lemma GaveBackBoth(db: Db, h: History, i: nat, j: nat, id: RecordId)
    requires Initial(db) && NoChargeOn(db, id) && h.From(db) && GivesBackBoth(db, h, i, j, id)
    ensures id !in db.records && BothHaveToGive(db, db.txs[i].job, db.txs[j].job)
  {
    var k :| GivesAt(h, k, i);
    var m :| GivesAt(h, m, j);
    hide Reaches, Initial, NoChargeOn;
    if k < m {
      GaveInTurn(db, h, k, i, m, j, id);
    } else {
      GaveInTurn(db, h, m, j, k, i, id);
    }
  }

  lemma GaveInTurn(db: Db, h: History, k: nat, i: nat, m: nat, j: nat, id: RecordId)
    requires Initial(db) && NoChargeOn(db, id) && h.From(db) && k < m && GivesAt(h, k, i) && GivesAt(h, m, j)
    requires i < |db.txs| && j < |db.txs| && RefundsWith(db.txs[i].job, id) && RefundsWith(db.txs[j].job, id)
    ensures id !in db.records && BothHaveToGive(db, db.txs[i].job, db.txs[j].job)
  {
    var a, b := db.txs[i].job, db.txs[j].job;
    GaveWhatWasThere(db, h, k, i, id);
    GaveWhatWasThere(db, h, m, j, id);
    UsedNeverRises(db, h, 0, k, a.row);
    UsedNeverRises(db, h, 0, m, b.row);
    UsedNeverRises(db, h, k + 1, m, a.row);
    assert h.states[0] == db;
    hide Reaches, Initial, NoChargeOn, GivesAt, RefundsWith;
  }

  lemma GaveWhatWasThere(db: Db, h: History, k: nat, i: nat, id: RecordId)
    requires Initial(db) && NoChargeOn(db, id) && h.From(db) && GivesAt(h, k, i)
    requires i < |db.txs| && RefundsWith(db.txs[i].job, id)
    ensures id !in db.records && db.txs[i].job.amount > 0 && k + 1 < |h.states|
    ensures var a := db.txs[i].job; var used := UsedIn(h.states[k].rows, a.row);
            && used > 0 && UsedIn(h.states[k + 1].rows, a.row) == used - Min(used, a.amount)
            && forall q :: 0 <= q < |db.txs| ==> !(db.txs[q].job.Consume? && db.txs[q].job.row == a.row)
  {
    RunInv(db, h.schedule, h.states, k);
    RunInv(db, h.schedule, h.states, k + 1);
    RunNext(db, h.schedule, h.states, k);
    KnownStaysIdle(db, h.schedule, h.states, k + 1, id);
    var d, e := h.states[k], h.states[k + 1];
    assert StaysIdle(e.txs[i], id, id in db.records);
    assert e.txs[i].job == db.txs[i].job == d.txs[i].job;
    hide Reaches, Initial, Inv, Next;
    NextMoves(d, i, e, db.txs[i].job.row);
  }

  /** What a row has used never rises if no consumption names it. */
  lemma {:induction false} UsedNeverRises(db: Db, h: History, k: nat, m: nat, row: string)
    requires Initial(db) && Reaches(db, h.schedule, h.states)
    requires k <= m <= |h.schedule| && |h.states| == |h.schedule| + 1
    requires forall q :: 0 <= q < |db.txs| ==> !(db.txs[q].job.Consume? && db.txs[q].job.row == row)
    ensures UsedIn(h.states[m].rows, row) <= UsedIn(h.states[k].rows, row)
  {
    hide *;
    if k < m {
      UsedNeverRises(db, h, k, m - 1, row);
      StepFacts(db, h, m - 1);
      UsedOnlyFalls(h.states[m - 1], h.schedule[m - 1], h.states[m], row);
    }
  }

  lemma StepFacts(db: Db, h: History, m: nat)
    requires Initial(db) && Reaches(db, h.schedule, h.states) && m < |h.schedule| && |h.states| == |h.schedule| + 1
    ensures var d, i, e := h.states[m], h.schedule[m], h.states[m + 1];
            && Inv(d) && Inv(e) && Next(d, i, e) && i < |db.txs| == |d.txs| == |e.txs|
            && e.txs[i].job == d.txs[i].job == db.txs[i].job
  {
    hide *;
    RunInv(db, h.schedule, h.states, m);
    RunNext(db, h.schedule, h.states, m);
    NextInv(h.states[m], h.schedule[m], h.states[m + 1]);
    JobsFixed(h.states[m], h.schedule[m], h.states[m + 1]);
  }

  lemma UsedOnlyFalls(db: Db, i: nat, e: Db, row: string)
    requires Inv(db) && Inv(e) && Next(db, i, e) && i < |db.txs| == |e.txs|
    requires !(db.txs[i].job.Consume? && db.txs[i].job.row == row) && e.txs[i].job == db.txs[i].job
    ensures UsedIn(e.rows, row) <= UsedIn(db.rows, row)
  {
    NextMoves(db, i, e, row);
    assert TxOk(e, e.txs[i]);
    hide Next, Exclusive;
  }
}
