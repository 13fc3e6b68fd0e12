/**
 The proleptic Gregorian calendar as Go's `time` package uses it in UTC.  A time is a number of
 nanosecond ticks since 0001-01-01 00:00:00 UTC, which is Go's zero time, so `IsZero` is `t == 0`.
 Month lengths are those of RFC 3339, section 5.7; the leap rule is that of its Appendix C.

 Months are counted by one index, `12 * year + (month - 1)`, which makes Go's normalisation of an
 out-of-range month the plain quotient and remainder by 12.
 */
module Calendar {

  const TICKS_PER_DAY: int := 86_400_000_000_000

  datatype Civil = Civil(year: int, month: int, day: int)

  predicate IsLeap(y: int) {
    y % 4 == 0 && (y % 100 != 0 || y % 400 == 0)
  }

  function MonthDays(y: int, m: int): (n: int)
    requires 1 <= m <= 12
    ensures 28 <= n <= 31
  {
    if m == 2 then (if IsLeap(y) then 29 else 28)
    else if m in {4, 6, 9, 11} then 30
    else 31
  }

  predicate ValidCivil(c: Civil) {
    1 <= c.month <= 12 && 1 <= c.day <= MonthDays(c.year, c.month)
  }

  function MonthIndex(y: int, m: int): int {
    12 * y + m - 1
  }

  function MonthLength(mi: int): (n: int)
    ensures 28 <= n <= 31
  {
    MonthDays(mi / 12, mi % 12 + 1)
  }

  /** The first day of the month with index `mi`, counting month lengths from January of year 1. */
  function MonthStart(mi: int): int
    decreases if mi < 12 then 12 - mi else mi - 12
  {
    if mi == 12 then 0
    else if mi > 12 then MonthStart(mi - 1) + MonthLength(mi - 1)
    else MonthStart(mi + 1) - MonthLength(mi)
  }

  /** The day number of `time.Date(y, m, d, ...)`: any month and any day are normalised. */
  function DateDays(y: int, m: int, d: int): int {
    MonthStart(MonthIndex(y, m)) + d - 1
  }

  /** `time.Date(y, m, d, ...)` with the time of day `clock`. */
  function Date(y: int, m: int, d: int, clock: int): int {
    DateDays(y, m, d) * TICKS_PER_DAY + clock
  }

  function DayOf(t: int): int {
    t / TICKS_PER_DAY
  }

  function ClockOf(t: int): int {
    t % TICKS_PER_DAY
  }

  /** Months tile the day line. */
  lemma MonthStartStep(mi: int)
    ensures MonthStart(mi + 1) == MonthStart(mi) + MonthLength(mi)
  {
  }

  /** The closed form of the first day of a year, against the sum of month lengths. */
  lemma {:induction false} YearStartClosedForm(y: int)
    ensures MonthStart(12 * y) == 365 * (y - 1) + (y - 1) / 4 - (y - 1) / 100 + (y - 1) / 400
    decreases if y < 1 then 1 - y else y - 1
  {
    if y > 1 {
      YearStartClosedForm(y - 1);
      YearSpan(y - 1);
    } else if y < 1 {
      YearStartClosedForm(y + 1);
      YearSpan(y);
    }
  }

  lemma YearSpan(y: int)
    ensures MonthStart(12 * (y + 1)) == MonthStart(12 * y) + 365 + y / 4 - (y - 1) / 4
                                        - (y / 100 - (y - 1) / 100) + (y / 400 - (y - 1) / 400)
  {
    LeapCount(y);
    hide MonthStart, MonthLength, IsLeap;
    var n := MonthStart(12 * y);
    var leap := if IsLeap(y) then 1 else 0;
    MonthAfter(y, 1); MonthAfter(y, 2); MonthAfter(y, 3);
    assert MonthStart(12 * y + 3) == n + 90 + leap;
    MonthAfter(y, 4); MonthAfter(y, 5); MonthAfter(y, 6);
    assert MonthStart(12 * y + 6) == n + 181 + leap;
    MonthAfter(y, 7); MonthAfter(y, 8); MonthAfter(y, 9);
    assert MonthStart(12 * y + 9) == n + 273 + leap;
    MonthAfter(y, 10); MonthAfter(y, 11); MonthAfter(y, 12);
  }

  lemma MonthAfter(y: int, m: int)
    requires 1 <= m <= 12
    ensures MonthStart(12 * y + m) == MonthStart(12 * y + m - 1) + MonthDays(y, m)
  {
    MonthStartStep(12 * y + m - 1);
  }

  lemma LeapCount(y: int)
    ensures y / 4 - (y - 1) / 4 - (y / 100 - (y - 1) / 100) + (y / 400 - (y - 1) / 400)
            == if IsLeap(y) then 1 else 0
  {
    QuartersStep(y);
    CenturiesStep(y);
    FourCenturiesStep(y);
    HundredsAreFours(y);
  }

  lemma QuartersStep(y: int)
    ensures y / 4 - (y - 1) / 4 == if y % 4 == 0 then 1 else 0
  {
  }

  lemma CenturiesStep(y: int)
    ensures y / 100 - (y - 1) / 100 == if y % 100 == 0 then 1 else 0
  {
  }

  lemma HundredsAreFours(y: int)
    ensures y % 100 == 0 ==> y % 4 == 0
    ensures y % 400 == 0 ==> y % 100 == 0
  {
    if y % 100 == 0 {
      assert y == 4 * (25 * (y / 100));
    }
    if y % 400 == 0 {
      assert y == 100 * (4 * (y / 400));
    }
  }

  lemma FourCenturiesStep(y: int)
    ensures y / 400 - (y - 1) / 400 == if y % 400 == 0 then 1 else 0
  {
  }

  lemma {:induction false} MonthStartMonotone(a: int, b: int)
    requires a <= b
    ensures MonthStart(a) + 28 * (b - a) <= MonthStart(b)
    decreases b - a
  {
    if a < b {
      MonthStartMonotone(a, b - 1);
      MonthStartStep(b - 1);
    }
  }

  /** The month holding day `n`, searched from month `mi` in the direction of `n`. */
  function MonthFrom(n: int, mi: int): (r: int)
    requires MonthStart(mi) <= n || n < MonthStart(mi + 1)
    ensures MonthStart(r) <= n < MonthStart(r + 1)
    decreases if n < MonthStart(mi) then MonthStart(mi) - n else n - MonthStart(mi)
  {
    MonthStartStep(mi);
    MonthStartStep(mi - 1);
    hide MonthStart, MonthLength;
    if n < MonthStart(mi) then
      (if MonthStart(mi - 1) <= n then mi - 1 else MonthFrom(n, mi - 1))
    else if n < MonthStart(mi + 1) then mi
    else MonthFrom(n, mi + 1)
  }

  function MonthOf(n: int): (r: int)
    ensures MonthStart(r) <= n < MonthStart(r + 1)
  {
    MonthFrom(n, 12)
  }

  lemma MonthOfUnique(n: int, mi: int)
    requires MonthStart(mi) <= n < MonthStart(mi + 1)
    ensures MonthOf(n) == mi
  {
    var r := MonthOf(n);
    if r < mi {
      MonthStartMonotone(r + 1, mi);
    } else if mi < r {
      MonthStartMonotone(mi + 1, r);
    }
  }

  /** Year, month and day of a day number: Go's `t.Date()`. */
  function CivilOf(n: int): (c: Civil)
    ensures ValidCivil(c)
  {
    var mi := MonthOf(n);
    MonthStartStep(mi);
    Civil(mi / 12, mi % 12 + 1, n - MonthStart(mi) + 1)
  }

  lemma CivilOfMonthDay(mi: int, d: int)
    requires 1 <= d <= MonthLength(mi)
    ensures CivilOf(MonthStart(mi) + d - 1) == Civil(mi / 12, mi % 12 + 1, d)
  {
    hide MonthStart, MonthLength, MonthOf;
    MonthStartStep(mi);
    MonthOfUnique(MonthStart(mi) + d - 1, mi);
  }

  /** Go's normalisation: day `d` of month `m` of year `y`, for any `m`. */
  lemma DateNormalised(y: int, m: int, d: int)
    requires 1 <= d <= MonthLength(MonthIndex(y, m))
    ensures CivilOf(DateDays(y, m, d)) == Civil(MonthIndex(y, m) / 12, MonthIndex(y, m) % 12 + 1, d)
  {
    CivilOfMonthDay(MonthIndex(y, m), d);
  }

  /** Day 0 of the following month is the last day of the month `m`. */
  lemma LastDayOfMonth(y: int, m: int)
    ensures CivilOf(DateDays(y, m + 1, 0)).day == MonthLength(MonthIndex(y, m))
  {
    hide MonthStart, MonthLength, CivilOf;
    var mi := MonthIndex(y, m);
    MonthStartStep(mi);
    CivilOfMonthDay(mi, MonthLength(mi));
  }

  /** `Date` and `CivilOf` are inverse to each other, on all valid dates and all day numbers. */
  lemma DateOfCivil(n: int)
    ensures var c := CivilOf(n); DateDays(c.year, c.month, c.day) == n
  {
    hide MonthStart;
    var mi := MonthOf(n);
    assert MonthIndex(mi / 12, mi % 12 + 1) == mi;
  }

  lemma CivilOfDate(c: Civil)
    requires ValidCivil(c)
    ensures CivilOf(DateDays(c.year, c.month, c.day)) == c
  {
    hide CivilOf, DateDays;
    DateNormalised(c.year, c.month, c.day);
  }

  /** The calendar month that holds a day. */
  lemma MonthAround(n: int)
    ensures var c := CivilOf(n); var first, next := DateDays(c.year, c.month, 1), DateDays(c.year, c.month + 1, 1);
            && first <= n < next && next - first == MonthDays(c.year, c.month)
            && CivilOf(first).day == 1 && CivilOf(next).day == 1
  {
    hide CivilOf, MonthStart, MonthLength, MonthDays;
    var mi := MonthOf(n);
    MonthIndexOf(n);
    MonthStartStep(mi);
    CivilOfMonthDay(mi, 1);
    CivilOfMonthDay(mi + 1, 1);
  }

  lemma MonthIndexOf(n: int)
    ensures var c := CivilOf(n);
            MonthIndex(c.year, c.month) == MonthOf(n) && MonthLength(MonthOf(n)) == MonthDays(c.year, c.month)
  {
    hide MonthOf, MonthDays;
  }

  /** The closed form of the first day of every month: before March the months alternate in length, and after it
      two days fewer have passed, or one in a leap year. */
  lemma MonthStartClosedForm(y: int, m: int)
    requires 1 <= m <= 12
    ensures DateDays(y, m, 1) == 365 * (y - 1) + (y - 1) / 4 - (y - 1) / 100 + (y - 1) / 400 + (367 * m - 362) / 12
                                 - (if m <= 2 then 0 else if IsLeap(y) then 1 else 2)
  {
    YearStartClosedForm(y);
    hide MonthStart, IsLeap;
    var n := MonthStart(12 * y);
    MonthAfter(y, 1); MonthAfter(y, 2); MonthAfter(y, 3); MonthAfter(y, 4); MonthAfter(y, 5); MonthAfter(y, 6);
    MonthAfter(y, 7); MonthAfter(y, 8); MonthAfter(y, 9); MonthAfter(y, 10); MonthAfter(y, 11);
  }

  // ---------- the "2006-01-02" layout ----------

  function Digit(n: int): char
    requires 0 <= n < 10
  {
    ['0', '1', '2', '3', '4', '5', '6', '7', '8', '9'][n]
  }

  /** Decimal digits of `n`, padded with zeros to at least `width` digits. */
  function Padded(n: nat, width: nat): (s: string)
    ensures |s| >= width
    ensures forall i :: 0 <= i < |s| ==> '0' <= s[i] <= '9'
    decreases n, width
  {
    if n < 10 && width <= 1 then [Digit(n)]
    else Padded(n / 10, if width == 0 then 0 else width - 1) + [Digit(n % 10)]
  }

  function DigitsValue(s: string): int {
    if s == "" then 0 else 10 * DigitsValue(s[..|s| - 1]) + (s[|s| - 1] as int - '0' as int)
  }

  lemma {:induction false} PaddedValue(n: nat, width: nat)
    ensures DigitsValue(Padded(n, width)) == n
    decreases n, width
  {
    var s := Padded(n, width);
    if n < 10 && width <= 1 {
      assert s[..|s| - 1] == "";
    } else {
      var w := if width == 0 then 0 else width - 1;
      PaddedValue(n / 10, w);
      assert s[..|s| - 1] == Padded(n / 10, w);
    }
  }

  lemma {:induction false} PaddedTwo(n: nat)
    requires n < 100
    ensures |Padded(n, 2)| == 2
  {
    assert |Padded(n / 10, 1)| == 1;
  }

  function YearText(y: int): string {
    if y < 0 then "-" + Padded(-y, 4) else Padded(y, 4)
  }

  /** The day number in the layout 2006-01-02. */
  function DayText(n: int): string {
    var c := CivilOf(n);
    YearText(c.year) + "-" + Padded(c.month, 2) + "-" + Padded(c.day, 2)
  }

  /** The layout: in the years 0 to 9999, four digits of the year, two of the month and two of the day. */
  lemma DayTextReads(n: int)
    requires 0 <= CivilOf(n).year <= 9999
    ensures var t := DayText(n); var c := CivilOf(n);
            && |t| == 10 && t[4] == '-' && t[7] == '-'
            && DigitsValue(t[..4]) == c.year && DigitsValue(t[5..7]) == c.month && DigitsValue(t[8..]) == c.day
  {
    var c := CivilOf(n);
    PaddedTwo(c.month); PaddedTwo(c.day);
    PaddedFour(c.year);
    PaddedValue(c.year, 4); PaddedValue(c.month, 2); PaddedValue(c.day, 2);
    hide CivilOf, Padded, DigitsValue;
    var t := DayText(n);
    assert t[..4] == Padded(c.year, 4) && t[5..7] == Padded(c.month, 2) && t[8..] == Padded(c.day, 2);
  }

  lemma PaddedFour(n: nat)
    requires n <= 9999
    ensures |Padded(n, 4)| == 4
  {
    assert |Padded(n / 1000, 1)| == 1;
    assert |Padded(n / 100, 2)| == 2;
    assert |Padded(n / 10, 3)| == 3;
  }

  lemma SplitAtEnd(a: string, b: string, c: string, d: string)
    requires a + b == c + d && |b| == |d|
    ensures a == c && b == d
  {
    assert a == (a + b)[..|a|] && c == (c + d)[..|c|];
    assert b == (a + b)[|a|..] && d == (c + d)[|c|..];
  }

  /** The text of a day determines the day. */
  lemma DayTextInjective(a: int, b: int)
    ensures DayText(a) == DayText(b) <==> a == b
  {
    if DayText(a) == DayText(b) {
      DayTextDetermines(a, b);
    }
  }

  lemma DayTextDetermines(a: int, b: int)
    requires DayText(a) == DayText(b)
    ensures a == b
  {
    var ca, cb := CivilOf(a), CivilOf(b);
    DateOfCivil(a); DateOfCivil(b);
    hide CivilOf, DateDays, YearText, MonthDays;
    var ya, yb := YearText(ca.year), YearText(cb.year);
    var ma, mb, da, db := Padded(ca.month, 2), Padded(cb.month, 2), Padded(ca.day, 2), Padded(cb.day, 2);
    PaddedTwo(ca.month); PaddedTwo(cb.month); PaddedTwo(ca.day); PaddedTwo(cb.day);
    SplitAtEnd(ya + "-" + ma + "-", da, yb + "-" + mb + "-", db);
    SplitAtEnd(ya + "-" + ma, "-", yb + "-" + mb, "-");
    SplitAtEnd(ya + "-", ma, yb + "-", mb);
    SplitAtEnd(ya, "-", yb, "-");
    YearTextInjective(ca.year, cb.year);
    PaddedValue(ca.month, 2); PaddedValue(cb.month, 2);
    PaddedValue(ca.day, 2); PaddedValue(cb.day, 2);
  }

  lemma YearTextInjective(y: int, z: int)
    requires YearText(y) == YearText(z)
    ensures y == z
  {
    PaddedValue(if y < 0 then -y else y, 4);
    PaddedValue(if z < 0 then -z else z, 4);
    assert YearText(y)[0] == YearText(z)[0];
    if y < 0 && z < 0 {
      assert YearText(y)[1..] == Padded(-y, 4) && YearText(z)[1..] == Padded(-z, 4);
    }
  }

  /** The text of a day ends in a digit and has no colon in it. */
  lemma DayTextShape(n: int)
    ensures var s := DayText(n); s != "" && '0' <= s[|s| - 1] <= '9'
    ensures forall i :: 0 <= i < |DayText(n)| ==> DayText(n)[i] != ':'
  {
    var c := CivilOf(n);
    assert |Padded(c.day, 2)| >= 2;
  }
}
