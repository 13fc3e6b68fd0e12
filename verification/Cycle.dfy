/**
 Anniversary billing cycles (`pkg/goquota/cycle.go`).  The anchors of a subscription are the days on
 which its cycles start: the original day of the month, clipped to the length of each month.
 */
module Cycle {
  import opened Calendar

  function StartOfDay(t: int): int {
    var c := CivilOf(DayOf(t));
    Date(c.year, c.month, c.day, 0)
  }

  /** `months` after `base`, on `targetDay` or on the last day of a shorter month. */
  function AddMonthsSafeWithDay(base: int, months: int, targetDay: int): int {
    var b := CivilOf(DayOf(base));
    var target := CivilOf(DateDays(b.year, b.month + months, 1));
    var lastDay := CivilOf(DateDays(target.year, target.month + 1, 0)).day;
    var actualDay := if targetDay > lastDay then lastDay else targetDay;
    Date(target.year, target.month, actualDay, ClockOf(base))
  }

  function AddMonthsSafe(t: int, months: int): int {
    var c := CivilOf(DayOf(t));
    var target := CivilOf(DateDays(c.year, c.month + months, 1));
    var lastDay := CivilOf(DateDays(target.year, target.month + 1, 0)).day;
    var actualDay := if c.day > lastDay then lastDay else c.day;
    Date(target.year, target.month, actualDay, ClockOf(t))
  }

  /** The day of month `mi` closest to `day` from below. */
  function ClippedDay(mi: int, day: int): int {
    MonthStart(mi) + (if day > MonthLength(mi) then MonthLength(mi) else day) - 1
  }

  function StartMonth(t: int): int {
    MonthIndex(CivilOf(DayOf(t)).year, CivilOf(DayOf(t)).month)
  }

  /** What the `k`-th cycle of a subscription should start at: midnight of the original day of the
      month, `k` months on, clipped to the length of that month. */
  function Anchor(start: int, k: int): int {
    ClippedDay(StartMonth(start) + k, CivilOf(DayOf(start)).day) * TICKS_PER_DAY
  }

  ghost predicate InCycle(start: int, k: int, now: int) {
    Anchor(start, k) <= now < Anchor(start, k + 1)
  }

  lemma StartOfDayIs(t: int)
    ensures StartOfDay(t) == DayOf(t) * TICKS_PER_DAY <= t < StartOfDay(t) + TICKS_PER_DAY
    ensures DayOf(StartOfDay(t)) == DayOf(t) && ClockOf(StartOfDay(t)) == 0
  {
    DateOfCivil(DayOf(t));
  }

  /** The month arithmetic lands on the right month, and "day 0" finds its last day. */
  lemma AddMonthsMeaning(base: int, months: int, targetDay: int)
    ensures AddMonthsSafeWithDay(base, months, targetDay)
            == ClippedDay(StartMonth(base) + months, targetDay) * TICKS_PER_DAY + ClockOf(base)
  {
    hide CivilOf, MonthStart, MonthLength;
    var b := CivilOf(DayOf(base));
    var mi := StartMonth(base) + months;
    DateNormalised(b.year, b.month + months, 1);
    var target := CivilOf(DateDays(b.year, b.month + months, 1));
    assert MonthIndex(target.year, target.month) == MonthIndex(b.year, b.month + months) == mi;
    LastDayOfMonth(target.year, target.month);
  }

  /** The code's month arithmetic computes the anchors. */
  lemma AddMonthsIsAnchor(start: int, k: int)
    ensures var s := StartOfDay(start);
            AddMonthsSafeWithDay(s, k, CivilOf(DayOf(s)).day) == Anchor(start, k)
  {
    StartOfDayIs(start);
    AddMonthsMeaning(StartOfDay(start), k, CivilOf(DayOf(start)).day);
    hide AddMonthsSafeWithDay, ClippedDay, CivilOf, MonthIndex;
  }

  /** The clamp for a future start uses the other helper; the two agree on the start's own day. */
  lemma HelpersAgree(t: int, months: int)
    ensures AddMonthsSafe(t, months) == AddMonthsSafeWithDay(t, months, CivilOf(DayOf(t)).day)
  {
  }

  /** No drift: the `k`-th anchor is midnight of the original day of the month, `k` months on,
      clipped to the length of that month. */
  lemma AnchorDate(start: int, k: int)
    ensures ClockOf(Anchor(start, k)) == 0
    ensures var s := CivilOf(DayOf(start)); var c := CivilOf(DayOf(Anchor(start, k)));
            && MonthIndex(c.year, c.month) == MonthIndex(s.year, s.month) + k
            && c.day == if s.day <= MonthDays(c.year, c.month) then s.day else MonthDays(c.year, c.month)
  {
    hide MonthStart, CivilOf;
    var s := CivilOf(DayOf(start));
    var mi := StartMonth(start) + k;
    var day := if s.day > MonthLength(mi) then MonthLength(mi) else s.day;
    CivilOfMonthDay(mi, day);
    assert DayOf(Anchor(start, k)) == ClippedDay(mi, s.day) == MonthStart(mi) + day - 1;
    assert MonthIndex(mi / 12, mi % 12 + 1) == mi;
  }

  /** Every cycle lasts between 28 and 31 whole days, and the first one starts with the subscription. */
  lemma CycleLength(start: int, k: int)
    ensures 28 * TICKS_PER_DAY <= Anchor(start, k + 1) - Anchor(start, k) <= 31 * TICKS_PER_DAY
    ensures (Anchor(start, k + 1) - Anchor(start, k)) % TICKS_PER_DAY == 0
    ensures Anchor(start, 0) == StartOfDay(start)
  {
    hide StartOfDay, MonthStart, MonthLength, CivilOf, MonthIndex;
    var s := CivilOf(DayOf(start));
    var mi := StartMonth(start) + k;
    MonthStartStep(mi);
    AdjacentClipped(mi, s.day);
    var gap := ClippedDay(mi + 1, s.day) - ClippedDay(mi, s.day);
    assert Anchor(start, k + 1) - Anchor(start, k) == gap * TICKS_PER_DAY;
    FirstAnchor(start);
  }

  lemma FirstAnchor(start: int)
    ensures Anchor(start, 0) == StartOfDay(start)
  {
    hide StartOfDay, MonthStart, CivilOf;
    StartOfDayIs(start);
    DateOfCivil(DayOf(start));
    var s := CivilOf(DayOf(start));
    assert MonthLength(StartMonth(start)) == MonthDays(s.year, s.month);
  }

  /** Clipping to two adjacent months keeps the distance between 28 and 31 days. */
  lemma AdjacentClipped(mi: int, day: int)
    requires 1 <= day <= 31
    ensures var a := if day > MonthLength(mi) then MonthLength(mi) else day;
            var b := if day > MonthLength(mi + 1) then MonthLength(mi + 1) else day;
            28 <= MonthLength(mi) + b - a <= 31
  {
    var m := mi % 12 + 1;
    assert (mi + 1) % 12 + 1 == if m == 12 then 1 else m + 1;
  }

  lemma {:induction false} AnchorsIncrease(start: int, j: int, k: int)
    requires j <= k
    ensures Anchor(start, j) + 28 * TICKS_PER_DAY * (k - j) <= Anchor(start, k)
    decreases k - j
  {
    hide Anchor;
    if j < k {
      AnchorsIncrease(start, j, k - 1);
      CycleLength(start, k - 1);
      assert 28 * TICKS_PER_DAY * (k - j) == 28 * TICKS_PER_DAY * (k - 1 - j) + 28 * TICKS_PER_DAY;
    }
  }

  function CycleIndexFrom(start: int, now: int, k: nat): (r: nat)
    requires Anchor(start, k) <= now
    ensures InCycle(start, r, now)
    decreases now - Anchor(start, k)
  {
    CycleLength(start, k);
    hide Anchor;
    if now < Anchor(start, k + 1) then k else CycleIndexFrom(start, now, k + 1)
  }

  /** The cycle in force at `now`: the first one while the subscription has not started. */
  function CycleOf(start: int, now: int): (int, int) {
    if now < StartOfDay(start) then (Anchor(start, 0), Anchor(start, 1))
    else
      CycleLength(start, 0);
      var k := CycleIndexFrom(start, now, 0);
      (Anchor(start, k), Anchor(start, k + 1))
  }

  /** Cycles do not overlap: `now` is in at most one. */
  lemma CycleUnique(start: int, now: int, j: int, k: int)
    requires InCycle(start, j, now) && InCycle(start, k, now)
    ensures j == k
  {
    hide Anchor;
    if j < k {
      AnchorsIncrease(start, j + 1, k);
    } else if k < j {
      AnchorsIncrease(start, k + 1, j);
    }
  }

  /** The partition: from the start of its first day on, every time is in exactly one cycle of the
      subscription, and that cycle is the one returned. */
  lemma CyclePartition(start: int, now: int) returns (k: nat)
    requires StartOfDay(start) <= now
    ensures InCycle(start, k, now)
    ensures forall j: int :: InCycle(start, j, now) ==> j == k
    ensures CycleOf(start, now) == (Anchor(start, k), Anchor(start, k + 1))
  {
    CycleLength(start, 0);
    hide Anchor, StartOfDay;
    k := CycleIndexFrom(start, now, 0);
    forall j: int | InCycle(start, j, now) ensures j == k {
      CycleUnique(start, now, j, k);
    }
  }

  method CurrentCycleForStart(start: int, now: int) returns (cycleStart: int, cycleEnd: int)
    ensures (cycleStart, cycleEnd) == CycleOf(start, now)
    ensures now < cycleEnd && (StartOfDay(start) <= now ==> cycleStart <= now)
  {
    var s := StartOfDay(start);
    CycleLength(start, 0);
    HelpersAgree(s, 1);
    AddMonthsIsAnchor(start, 1);
    hide AddMonthsSafe, AddMonthsSafeWithDay, StartOfDay, Anchor, CivilOf;
    if now < s {
      var end := AddMonthsSafe(s, 1);
      return s, end;
    }
    var originalDay := CivilOf(DayOf(s)).day;
    var monthsElapsed := 0;
    assert Anchor(start, 0) <= now;
    while true
      invariant 0 <= monthsElapsed && Anchor(start, monthsElapsed) <= now
      invariant CycleIndexFrom(start, now, 0) == CycleIndexFrom(start, now, monthsElapsed)
      decreases now - Anchor(start, monthsElapsed)
    {
      cycleStart := AddMonthsSafeWithDay(s, monthsElapsed, originalDay);
      cycleEnd := AddMonthsSafeWithDay(s, monthsElapsed + 1, originalDay);
      AddMonthsIsAnchor(start, monthsElapsed);
      AddMonthsIsAnchor(start, monthsElapsed + 1);
      CycleLength(start, monthsElapsed);
      if cycleEnd > now {
        return;
      }
      monthsElapsed := monthsElapsed + 1;
    }
  }

  /** The returned cycle moves forward with `now`, and two times share it exactly when no anchor
      after the first lies between them. */
  lemma CycleMonotone(start: int, t: int, u: int)
    requires t <= u
    ensures CycleOf(start, t).0 <= CycleOf(start, u).0 && CycleOf(start, t).1 <= CycleOf(start, u).1
    ensures CycleOf(start, t) == CycleOf(start, u) <==> forall k: int :: 1 <= k ==> !(t < Anchor(start, k) <= u)
  {
    hide Anchor, CycleOf, StartOfDay;
    var j := CycleRank(start, t);
    var k := CycleRank(start, u);
    AnchorsIncrease(start, 0, j); AnchorsIncrease(start, 0, k);
    if k < j {
      AnchorsIncrease(start, k + 1, j);
    }
    AnchorsIncrease(start, j, k);
    AnchorsIncrease(start, j + 1, k + 1);
    if j < k {
      AnchorsIncrease(start, j + 1, k);
      assert t < Anchor(start, j + 1) <= u;
    }
    forall i: int | 1 <= i && t < Anchor(start, i) <= u ensures j < k {
      if i <= k { AnchorsIncrease(start, i, k); } else { AnchorsIncrease(start, k + 1, i); }
      if i <= j { AnchorsIncrease(start, i, j); }
    }
  }

  /** The index of the returned cycle. */
  lemma CycleRank(start: int, t: int) returns (k: nat)
    ensures CycleOf(start, t) == (Anchor(start, k), Anchor(start, k + 1))
    ensures t < Anchor(start, k + 1) && (k == 0 || Anchor(start, k) <= t)
  {
    CycleLength(start, 0);
    hide Anchor, StartOfDay;
    if t < StartOfDay(start) {
      k := 0;
    } else {
      k := CyclePartition(start, t);
    }
  }
}
