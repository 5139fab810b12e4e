/**
 Civil dates as day numbers, and the RFC 3339 instants built on them.

 The calendar is defined by its rules: the lengths of the months, and leap years by four, a hundred
 and four hundred.  The day number is the closed formula of the code, with the year starting in
 March.  The laws connect the two: the epoch is day zero, and the day after a date, in the middle of
 a month, at its end, in February or at the end of the year, has the next number.
 */
module Calendar {

  // ---------- the Gregorian calendar ----------

  predicate IsLeap(y: int) { y % 4 == 0 && (y % 100 != 0 || y % 400 == 0) }

  function DaysIn(y: int, m: int): int {
    if m == 2 then (if IsLeap(y) then 29 else 28)
    else if m == 4 || m == 6 || m == 9 || m == 11 then 30
    else 31
  }

  datatype Date = Date(y: int, m: int, d: int)

  predicate ValidDate(x: Date) { x.y >= 0 && 1 <= x.m <= 12 && 1 <= x.d <= DaysIn(x.y, x.m) }

  function NextDate(x: Date): (r: Date)
    requires ValidDate(x)
    ensures ValidDate(r)
  {
    if x.d < DaysIn(x.y, x.m) then Date(x.y, x.m, x.d + 1)
    else if x.m < 12 then Date(x.y, x.m + 1, 1)
    else Date(x.y + 1, 1, 1)
  }

  // ---------- day numbers ----------

  /** Days since 1970-01-01, counting from March in 400-year eras. */
  function DaysFromCivil(x: Date): int {
    var y := if x.m <= 2 then x.y - 1 else x.y;
    var era := (if y >= 0 then y else y - 399) / 400;
    var yoe := y - era * 400;
    var mp := if x.m <= 2 then x.m + 9 else x.m - 3;
    var doy := (153 * mp + 2) / 5 + x.d - 1;
    var doe := yoe * 365 + yoe / 4 - yoe / 100 + doy;
    era * 146097 + doe - 719468
  }

  /** Day of the March-based year on which month m starts. */
  function MonthStart(m: int): int {
    var mp := if m <= 2 then m + 9 else m - 3;
    (153 * mp + 2) / 5
  }

  /** Days before a year of an era. */
  function YearDays(yoe: int): int { yoe * 365 + yoe / 4 - yoe / 100 }

  /** Day number of the first of March of a March-based year. */
  function YearStart(y: int): int { y / 400 * 146097 + YearDays(y % 400) - 719468 }

  lemma MonthTable(m: int)
    requires 1 <= m <= 11 && m != 2
    ensures MonthStart(m + 1) == MonthStart(m) + DaysIn(1, m)
  {
    if m == 1 {} else if m == 3 {} else if m == 4 {} else if m == 5 {} else if m == 6 {} else if m == 7 {}
    else if m == 8 {} else if m == 9 {} else if m == 10 {} else {}
  }

  lemma QuarterStep(n: int)
    ensures (n + 1) / 4 == n / 4 + if (n + 1) % 4 == 0 then 1 else 0
  {
  }

  lemma CenturyStep(n: int)
    ensures (n + 1) / 100 == n / 100 + if (n + 1) % 100 == 0 then 1 else 0
  {
  }

  lemma EraStep(n: int)
    ensures (n + 1) / 400 == n / 400 + if (n + 1) % 400 == 0 then 1 else 0
    ensures (n + 1) % 400 == if (n + 1) % 400 == 0 then 0 else n % 400 + 1
  {
  }

  /** Within an era the leap rule can be read off the year of the era. */
  lemma LeapInEra(y: int)
    ensures y % 4 == (y % 400) % 4 && y % 100 == (y % 400) % 100
    ensures y % 100 == 0 ==> y % 4 == 0
  {
    var q, r := y / 400, y % 400;
    assert y == 4 * (100 * q) + r && y == 100 * (4 * q) + r;
    FourOf(y, 100 * q, r);
    HundredOf(y, 4 * q, r);
    if y % 100 == 0 { assert y == 4 * (25 * (y / 100)); }
  }

  lemma FourOf(y: int, q: int, r: int)
    requires y == 4 * q + r
    ensures y % 4 == r % 4
  {
  }

  lemma HundredOf(y: int, q: int, r: int)
    requires y == 100 * q + r
    ensures y % 100 == r % 100
  {
  }

  lemma YearDaysStep(n: int)
    requires 0 <= n < 399
    ensures YearDays(n + 1) == YearDays(n) + 365 + if (n + 1) % 4 == 0 && (n + 1) % 100 != 0 then 1 else 0
  {
    QuarterStep(n);
    CenturyStep(n);
    LeapInEra(n + 1);
  }

  /** A March-based year has 366 days when it ends in a leap February. */
  lemma YearLength(y: int)
    requires y >= -1
    ensures YearStart(y + 1) == YearStart(y) + (if IsLeap(y + 1) then 366 else 365)
  {
    EraStep(y);
    LeapInEra(y + 1);
    if (y + 1) % 400 != 0 {
      YearDaysStep(y % 400);
    } else {
      assert y % 400 == 399;
    }
  }

  lemma EraFloor(y: int)
    requires y >= -1
    ensures (if y >= 0 then y else y - 399) / 400 == y / 400 && y - y / 400 * 400 == y % 400
  {
  }

  lemma DaysSplit(x: Date)
    requires x.y >= 0
    ensures DaysFromCivil(x) == YearStart(if x.m <= 2 then x.y - 1 else x.y) + MonthStart(x.m) + x.d - 1
  {
    EraFloor(if x.m <= 2 then x.y - 1 else x.y);
  }

  lemma EpochIsZero()
    ensures DaysFromCivil(Date(1970, 1, 1)) == 0
  {
  }

  /** Within a month, day numbers differ as days do. */
  lemma SameMonth(y: int, m: int, d: int, e: int)
    ensures DaysFromCivil(Date(y, m, e)) == DaysFromCivil(Date(y, m, d)) + e - d
  {
  }

  lemma AfterFebruary(y: int)
    requires y >= 0
    ensures DaysFromCivil(Date(y, 3, 1)) == DaysFromCivil(Date(y, 2, DaysIn(y, 2))) + 1
  {
    DaysSplit(Date(y, 3, 1));
    DaysSplit(Date(y, 2, DaysIn(y, 2)));
    YearLength(y - 1);
    FebruaryEnd();
  }

  lemma AfterMonth(y: int, m: int)
    requires y >= 0 && 1 <= m <= 11 && m != 2
    ensures DaysFromCivil(Date(y, m + 1, 1)) == DaysFromCivil(Date(y, m, DaysIn(y, m))) + 1
  {
    DaysSplit(Date(y, m + 1, 1));
    DaysSplit(Date(y, m, DaysIn(y, m)));
    MonthTable(m);
    assert DaysIn(1, m) == DaysIn(y, m);
  }

  lemma AfterDecember(y: int)
    requires y >= 0
    ensures DaysFromCivil(Date(y + 1, 1, 1)) == DaysFromCivil(Date(y, 12, 31)) + 1
  {
    DaysSplit(Date(y + 1, 1, 1));
    DaysSplit(Date(y, 12, 31));
    assert MonthStart(1) == MonthStart(12) + 31;
  }

  /** Every valid date is numbered one less than the date after it. */
  lemma NextDay(x: Date)
    requires ValidDate(x)
    ensures DaysFromCivil(NextDate(x)) == DaysFromCivil(x) + 1
  {
    if x.d < DaysIn(x.y, x.m) {
      SameMonth(x.y, x.m, x.d, x.d + 1);
    } else if x.m == 2 {
      AfterFebruary(x.y);
    } else if x.m < 12 {
      AfterMonth(x.y, x.m);
    } else {
      AfterDecember(x.y);
    }
  }

  lemma FebruaryEnd()
    ensures MonthStart(3) == 0 && MonthStart(2) + 28 == 365
  {
  }

  predicate DateBefore(a: Date, b: Date) {
    a.y < b.y || (a.y == b.y && (a.m < b.m || (a.m == b.m && a.d < b.d)))
  }

  /** Days left from a valid date to a bound that lies ahead. */
  lemma {:induction false} LaterDate(a: Date, b: Date)
    requires ValidDate(a) && ValidDate(b) && DateBefore(a, b)
    ensures DaysFromCivil(a) < DaysFromCivil(b)
    decreases b.y - a.y, 12 - a.m
  {
    if a.y == b.y && a.m == b.m {
      SameMonth(a.y, a.m, a.d, b.d);
    } else {
      var last := Date(a.y, a.m, DaysIn(a.y, a.m));
      var first := NextDate(last);
      SameMonth(a.y, a.m, a.d, last.d);
      NextDay(last);
      if first != b { LaterDate(first, b); }
    }
  }

  /** Day numbers order dates as the calendar does. */
  lemma DaysMonotone(a: Date, b: Date)
    requires ValidDate(a) && ValidDate(b)
    ensures DateBefore(a, b) <==> DaysFromCivil(a) < DaysFromCivil(b)
    ensures a == b <==> DaysFromCivil(a) == DaysFromCivil(b)
  {
    if DateBefore(a, b) { LaterDate(a, b); }
    if DateBefore(b, a) { LaterDate(b, a); }
  }
}
