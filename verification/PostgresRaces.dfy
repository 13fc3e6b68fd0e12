/** Where exactly-once of consumptions needs its condition: interleavings in which one key charges twice, and
    the exact condition under which some interleaving does that. */
module PostgresRaces {
  import opened Postgres
  import Ledger

  datatype History = History(schedule: seq<nat>, states: seq<Db>) {
    ghost predicate From(db: Db) {
      Reaches(db, schedule, states)
    }
    function Last(): Db
      requires states != []
    {
      states[|states| - 1]
    }
  }

  /** One more statement of transaction `i`. */
  lemma Extend(db: Db, h: History, i: nat) returns (g: History)
    requires h.From(db) && i < |h.Last().txs| && CanStep(h.Last(), i)
    ensures g.From(db) && g.Last() == Step(h.Last(), i)
    ensures g == History(h.schedule + [i], h.states + [Step(h.Last(), i)])
  {
    var e := Step(h.Last(), i);
    g := History(h.schedule + [i], h.states + [e]);
    hide Step, CanStep;
    forall k | 0 <= k < |g.schedule| ensures Next(g.states[k], g.schedule[k], g.states[k + 1]) {
      if k < |h.schedule| {
        assert Next(h.states[k], h.schedule[k], h.states[k + 1]);
      } else {
        assert g.states[k] == h.Last() && g.states[k + 1] == e;
      }
    }
  }

  /** The row, as it is or as the consumption would create it, has room for the amount. */
  predicate Affordable(db: Db, j: Job) {
    j.amount > 0 && Ledger.Fits(Base(db, j).limit, Base(db, j).used + j.amount)
  }

  function ChargedRow(db: Db, j: Job): Row {
    Base(db, j).(used := Base(db, j).used + j.amount)
  }

  /** A consumption that runs on its own, up to and including its second look at the records. */
  lemma ConsumeUpToRecheck(db: Db, h: History, i: nat) returns (g: History)
    requires h.From(db) && i < |h.Last().txs|
    requires var t := h.Last().txs[i];
             && t.pc == Begin && ConsumesWith(t.job, Id(t.job)) && Affordable(h.Last(), t.job)
             && Id(t.job) !in h.Last().records && RowFree(h.Last(), i)
    ensures g.From(db)
    ensures g.Last() == Goto(h.Last(), i, Rechecked(ChargedRow(h.Last(), h.Last().txs[i].job)))
  {
    var d := h.Last();
    var j := d.txs[i].job;
    g := ConsumeUpToLock(db, h, i);
    g := Extend(db, g, i);
    assert g.Last() == Goto(d, i, Updated(ChargedRow(d, j)));
    g := Extend(db, g, i);
  }

  /** A new or unkeyed consumption up to its lock. */
  lemma ConsumeUpToLock(db: Db, h: History, i: nat) returns (g: History)
    requires h.From(db) && i < |h.Last().txs|
    requires var t := h.Last().txs[i];
             && t.pc == Begin && t.job.Consume? && t.job.amount > 0
             && (t.job.key == "" || Id(t.job) !in h.Last().records) && RowFree(h.Last(), i)
    ensures g.From(db) && g.schedule == h.schedule + [i, i, i]
    ensures g.Last() == Goto(h.Last(), i, Locked(Base(h.Last(), h.Last().txs[i].job)))
  {
    var d := h.Last();
    var j := d.txs[i].job;
    g := Extend(db, h, i);
    assert g.Last() == Goto(d, i, Checked);
    g := Extend(db, g, i);
    assert g.Last() == Goto(d, i, Ensured(j.row !in d.rows));
    g := Extend(db, g, i);
  }

  /** Everyone but `i` and `j` has yet to begin. */
  predicate OthersWait(db: Db, i: nat, j: nat) {
    && i < |db.txs| && j < |db.txs| && i != j
    && forall k :: 0 <= k < |db.txs| && k != i && k != j ==> db.txs[k].pc == Begin
  }

  /** Two consumptions of one user with one new key for two usage rows: some interleaving commits both. */
  lemma OneKeyTwoRows(db: Db, i: nat, j: nat) returns (h: History)
    requires Initial(db) && i < |db.txs| && j < |db.txs| && i != j
    requires var a, b := db.txs[i].job, db.txs[j].job;
             && ConsumesWith(a, Id(a)) && ConsumesWith(b, Id(a)) && a.row != b.row && Id(a) !in db.records
             && Affordable(db, a) && Affordable(db, b)
    ensures h.states != [] && h.From(db) && |h.Last().txs| == |db.txs|
    ensures h.Last().txs[i].pc.Committed? && h.Last().txs[i].job == db.txs[i].job
    ensures h.Last().txs[j].pc.Committed? && h.Last().txs[j].job == db.txs[j].job
    ensures var a, b := db.txs[i].job, db.txs[j].job;
            h.Last().rows == db.rows[a.row := ChargedRow(db, a)][b.row := ChargedRow(db, b)]
  {
    h := History([], [db]);
    h := ConsumeUpToRecheck(db, h, i);
    var d := h.Last();
    assert RowFree(d, j) && d.txs[j] == db.txs[j] && Base(d, d.txs[j].job) == Base(db, db.txs[j].job);
    h := ConsumeUpToRecheck(db, h, j);
    hide ConsumesWith, Affordable;
    h := CommitBoth(db, h, i, j);
  }

  /** Both transactions are past their last look at the records: both commit. */
  lemma CommitBoth(db: Db, h: History, i: nat, j: nat) returns (g: History)
    requires h.From(db) && OthersWait(h.Last(), i, j)
    requires var x, y := h.Last().txs[i], h.Last().txs[j];
             && x.pc.Rechecked? && y.pc.Rechecked? && Id(x.job) == Id(y.job)
             && !x.job.TopUp? && x.job.key != "" && y.job.key != ""
             && Id(x.job) !in h.Last().records
    ensures g.From(db) && |g.Last().txs| == |h.Last().txs|
    ensures g.Last().txs[i].pc.Committed? && g.Last().txs[i].job == h.Last().txs[i].job
    ensures g.Last().txs[j].pc.Committed? && g.Last().txs[j].job == h.Last().txs[j].job
    ensures var x, y := h.Last().txs[i], h.Last().txs[j];
            g.Last().rows == h.Last().rows[x.job.row := x.pc.view][y.job.row := y.pc.view]
  {
    var d := h.Last();
    assert IdFree(d, i);
    g := Extend(db, h, i);
    assert g.Last() == Goto(d, i, Recorded(d.txs[i].pc.view, true));
    g := Extend(db, g, i);
    assert g.Last().txs[j] == d.txs[j] && Id(d.txs[j].job) in g.Last().records;
    var e := g.Last();
    g := Extend(db, g, j);
    assert g.Last() == Goto(e, j, Recorded(d.txs[j].pc.view, false));
    g := Extend(db, g, j);
  }

  ghost predicate CanChargeTwice(db: Db, id: RecordId) {
    exists h: History, i: nat, j: nat :: h.From(db) && ChargedBoth(h, i, j, id)
  }

  predicate ChargedBoth(h: History, i: nat, j: nat, id: RecordId) {
    && h.states != [] && i < j < |h.Last().txs| && ConsumesWith(h.Last().txs[i].job, id)
    && ConsumesWith(h.Last().txs[j].job, id)
    && h.Last().txs[i].pc.Committed? && h.Last().txs[j].pc.Committed?
  }

  /** The exact condition for consumptions that their rows can afford: some interleaving charges a key
      twice if and only if the key is new and its consumptions name more than one row. */
  lemma ChargedTwiceIff(db: Db, id: RecordId)
    requires Initial(db)
    requires forall i :: 0 <= i < |db.txs| && ConsumesWith(db.txs[i].job, id) ==> Affordable(db, db.txs[i].job)
    ensures CanChargeTwice(db, id) <==> id !in db.records && !SameRowFor(db, id)
  {
    hide Affordable, Reaches, Initial, ConsumesWith;
    if id !in db.records && !SameRowFor(db, id) {
      var i, j :| 0 <= i < j < |db.txs| && ConsumesWith(db.txs[i].job, id) && ConsumesWith(db.txs[j].job, id)
                  && db.txs[i].job.row != db.txs[j].job.row;
      assert Id(db.txs[i].job) == id by {
        KeyNamed(db.txs[i].job, id);
      }
      var h := OneKeyTwoRows(db, i, j);
      assert ChargedBoth(h, i, j, id);
    }
    forall h: History, i: nat, j: nat | h.From(db) && ChargedBoth(h, i, j, id)
      ensures id !in db.records && !SameRowFor(db, id)
    {
      NotTwice(db, h, i, j, id);
    }
  }

  lemma KeyNamed(j: Job, id: RecordId)
    requires ConsumesWith(j, id)
    ensures Id(j) == id
  {
  }

  lemma NotTwice(db: Db, h: History, i: nat, j: nat, id: RecordId)
    requires Initial(db) && h.From(db) && ChargedBoth(h, i, j, id)
    ensures id !in db.records && !SameRowFor(db, id)
  {
    KnownStaysIdle(db, h.schedule, h.states, |h.schedule|, id);
    if SameRowFor(db, id) {
      ExactlyOnce(db, h.schedule, h.states, |h.schedule|, id);
    }
  }

  predicate NamedBy(j: Job, id: RecordId) {
    !j.TopUp? && j.key != "" && Id(j) == id
  }

  /** A consumption or refund that will have no effect: its key is on record, or its amount is not positive. */
  predicate StaysIdle(t: Tx, id: RecordId, known: bool) {
    NamedBy(t.job, id) && (known || t.job.amount <= 0) ==>
      t.pc.Begin? || t.pc.Replayed? || t.pc.Refused? || t.pc.Failed?
  }

  lemma {:induction false} KnownStaysIdle(db: Db, schedule: seq<nat>, states: seq<Db>, k: nat, id: RecordId)
    requires Initial(db) && Reaches(db, schedule, states) && k < |states|
    ensures id in db.records ==> id in states[k].records
    ensures forall i :: 0 <= i < |states[k].txs| ==> StaysIdle(states[k].txs[i], id, id in db.records)
  {
    if k > 0 {
      KnownStaysIdle(db, schedule, states, k - 1, id);
      RunNext(db, schedule, states, k - 1);
      hide Reaches, StaysIdle, Initial;
      NextStaysIdle(states[k - 1], schedule[k - 1], states[k], id, id in db.records);
    }
  }

  lemma NextStaysIdle(db: Db, i: nat, e: Db, id: RecordId, known: bool)
    requires Inv(db) && Next(db, i, e) && (known ==> id in db.records)
    requires forall k :: 0 <= k < |db.txs| ==> StaysIdle(db.txs[k], id, known)
    ensures known ==> id in e.records
    ensures forall k :: 0 <= k < |e.txs| ==> StaysIdle(e.txs[k], id, known)
  {
    assert TxOk(db, db.txs[i]);
    RecordsOnlyGrow(db, i, e);
    RecordStep(db, i, e);
    assert StaysIdle(db.txs[i], id, known);
    assert StaysIdle(e.txs[i], id, known) by {
      hide TxOk;
    }
    hide StaysIdle, Next, TxOk, Inv;
  }
  // ---------- top-ups of unlimited rows ----------

  /** Why `NeverOverLimit` asks that top-ups name no unlimited row: a top-up adds to the -1 that stands for
      "unlimited".  Run on its own, it leaves the row within its limit exactly when it adds nothing, or more
      than what is used. */
  lemma TopUpEndsUnlimited(db: Db, i: nat) returns (h: History)
    requires Initial(db) && i < |db.txs|
    requires var j := db.txs[i].job;
             && j.TopUp? && (j.key == "" || Id(j) !in db.records) && j.amount >= 0
             && j.row in db.rows && db.rows[j.row].limit == -1
    ensures h.states != [] && h.From(db)
    ensures var j := db.txs[i].job; var row := Row(db.rows[j.row].used, j.amount - 1);
            && h.Last().rows == db.rows[j.row := row]
            && (Ledger.Fits(row.limit, row.used) <==> j.amount == 0 || row.used < j.amount)
  {
    var j := db.txs[i].job;
    h := History([], [db]);
    h := Extend(db, h, i);
    assert h.Last() == Goto(db, i, Checked);
    h := Extend(db, h, i);
    assert h.Last() == Goto(db, i, Recorded(Row(db.rows[j.row].used, j.amount - 1), j.key != ""));
    h := Extend(db, h, i);
  }
}
