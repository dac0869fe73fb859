/**
 The proleptic Gregorian calendar the way the JavaScript `Date` object sees it:
 months are numbered 0 (January) to 11 (December), days of the week 0 (Sunday)
 to 6 (Saturday), and an out-of-range month or day given to the `Date`
 constructor or to `setMonth` is carried into the neighbouring months and years.

 Dates are identified by their day number, the count of days since
 1 January 1970, a Thursday.
 */
module Gregorian {

  /** A calendar date with a zero-based month, as `getFullYear`, `getMonth`
      and `getDate` report it. */
  datatype Date = Date(year: int, month: int, day: int) {
    predicate Valid() {
      0 <= month < 12 && 1 <= day <= DaysInMonth(year, month)
    }
  }

  predicate IsLeapYear(y: int) {
    (y % 4 == 0 && y % 100 != 0) || y % 400 == 0
  }

  function YearLength(y: int): (n: int)
    ensures n == 365 || n == 366
    ensures n == 366 <==> IsLeapYear(y)
  {
    if IsLeapYear(y) then 366 else 365
  }

  /** Length of month `m` (0-based) of year `y`. */
  function DaysInMonth(y: int, m: int): (n: int)
    requires 0 <= m < 12
    ensures 28 <= n <= 31
    ensures m == 1 ==> (n == 29 <==> IsLeapYear(y)) && (n == 28 <==> !IsLeapYear(y))
    ensures m != 1 ==> (n == 30 <==> m in {3, 5, 8, 10}) && (n == 31 <==> m !in {3, 5, 8, 10})
  {
    if m == 1 then (if IsLeapYear(y) then 29 else 28)
    else if m == 3 || m == 5 || m == 8 || m == 10 then 30
    else 31
  }

  /** Number of leap years among the years 1 .. y-1 (negative, by the same
      formula, for years before 1). */
  function LeapYearsBefore(y: int): int {
    (y - 1) / 4 - (y - 1) / 100 + (y - 1) / 400
  }

  /** Day number of 1 January of year `y`. */
  function DaysBeforeYear(y: int): int {
    365 * (y - 1970) + LeapYearsBefore(y) - LeapYearsBefore(1970)
  }

  /** Days from 1 January to the first of month `m` of year `y`. */
  function DaysBeforeMonth(y: int, m: int): int
    requires 0 <= m < 12
  {
    [0, 31, 59, 90, 120, 151, 181, 212, 243, 273, 304, 334][m]
      + (if m >= 2 && IsLeapYear(y) then 1 else 0)
  }

  /** Day number of day `d` of month `m` of year `y`; `d` may lie outside the
      month, as in `new Date(y, m, d)`. */
  function DayNumber(y: int, m: int, d: int): int
    requires 0 <= m < 12
  {
    DaysBeforeYear(y) + DaysBeforeMonth(y, m) + d - 1
  }

  function DayNumberOf(date: Date): int
    requires 0 <= date.month < 12
  {
    DayNumber(date.year, date.month, date.day)
  }

  /** Day of the week of a day number, 0 = Sunday; day 0 was a Thursday. */
  function Weekday(n: int): (w: int)
    ensures 0 <= w < 7
  {
    (n + 4) % 7
  }

  /** The month after (y, m). */
  function NextMonth(y: int, m: int): (r: (int, int))
    requires 0 <= m < 12
    ensures 0 <= r.1 < 12
    ensures r.1 == (m + 1) % 12
    ensures r.0 == (if m == 11 then y + 1 else y)
  {
    if m == 11 then (y + 1, 0) else (y, m + 1)
  }

  /** The month before (y, m). */
  function PrevMonth(y: int, m: int): (r: (int, int))
    requires 0 <= m < 12
    ensures 0 <= r.1 < 12
    ensures r.1 == (m + 11) % 12
    ensures r.0 == (if m == 0 then y - 1 else y)
  {
    if m == 0 then (y - 1, 11) else (y, m - 1)
  }

  lemma {:induction false} PrevNextMonthInverse(y: int, m: int)
    requires 0 <= m < 12
    ensures PrevMonth(NextMonth(y, m).0, NextMonth(y, m).1) == (y, m)
    ensures NextMonth(PrevMonth(y, m).0, PrevMonth(y, m).1) == (y, m)
  {
  }

  /** y/k drops by one exactly when y crosses a multiple of k. */
  lemma DivStep(y: int, k: int)
    requires k > 0
    ensures y / k - (y - 1) / k == (if y % k == 0 then 1 else 0)
  {
    var q, r := y / k, y % k;
    assert y == k * q + r;
    if r == 0 {
      assert y - 1 == k * (q - 1) + (k - 1);
      DivUnique(y - 1, k, q - 1, k - 1);
    } else {
      assert y - 1 == k * q + (r - 1);
      DivUnique(y - 1, k, q, r - 1);
    }
  }

  lemma DivUnique(a: int, k: int, q: int, r: int)
    requires k > 0 && 0 <= r < k && a == k * q + r
    ensures a / k == q
  {
    var q', r' := a / k, a % k;
    assert a == k * q' + r';
    if q' < q {
      MulMonotone(k, q' + 1, q);
    } else if q' > q {
      MulMonotone(k, q + 1, q');
    }
  }

  lemma MulMonotone(k: int, x: int, y: int)
    requires k >= 0 && x <= y
    ensures k * x <= k * y
  {
    var d := y - x;
    assert k * y == k * x + k * d;
  }

  /** Adding a multiple of 7 does not change the remainder by 7. */
  lemma ModSevenShift(x: int, q: int)
    ensures (x + 7 * q) % 7 == x % 7
  {
    DivUnique(x + 7 * q, 7, x / 7 + q, x % 7);
  }

  /** 1 January of the next year comes YearLength(y) days after that of `y`. */
  lemma YearStep(y: int)
    ensures DaysBeforeYear(y + 1) == DaysBeforeYear(y) + YearLength(y)
  {
    DivStep(y, 4);
    DivStep(y, 100);
    DivStep(y, 400);
    if y % 400 == 0 {
      assert y % 100 == 0 && y % 4 == 0 by {
        var q := y / 400;
        assert y == 400 * q;
        assert y == 100 * (4 * q);
        assert y == 4 * (100 * q);
        DivUnique(y, 100, 4 * q, 0);
        DivUnique(y, 4, 100 * q, 0);
      }
    } else if y % 100 == 0 {
      assert y % 4 == 0 by {
        var q := y / 100;
        assert y == 4 * (25 * q);
        DivUnique(y, 4, 25 * q, 0);
      }
    }
  }

  /** The cumulative month table agrees with the month lengths: each month
      starts where the previous one ended, and December ends the year. */
  lemma MonthStep(y: int, m: int)
    requires 0 <= m < 12
    ensures m < 11 ==> DaysBeforeMonth(y, m + 1) == DaysBeforeMonth(y, m) + DaysInMonth(y, m)
    ensures m == 11 ==> DaysBeforeMonth(y, m) + DaysInMonth(y, m) == YearLength(y)
  {
  }

  /** The first of the next month is DaysInMonth(y, m) days after the first of month m. */
  lemma NextMonthDayNumber(y: int, m: int, d: int)
    requires 0 <= m < 12
    ensures DayNumber(NextMonth(y, m).0, NextMonth(y, m).1, d)
            == DayNumber(y, m, d + DaysInMonth(y, m))
  {
    MonthStep(y, m);
    if m == 11 {
      YearStep(y);
    }
  }

  /** Carries a day that lies outside month (y, m) into the neighbouring
      months, as `Date` does: the result is a real date with the same day number. */
  function NormalizeDay(y: int, m: int, d: int): (r: Date)
    requires 0 <= m < 12
    ensures r.Valid()
    ensures DayNumberOf(r) == DayNumber(y, m, d)
    decreases if d < 1 then 1 - d else 0, if d > DaysInMonth(y, m) then d else 0
  {
    if d < 1 then
      var (py, pm) := PrevMonth(y, m);
      PrevNextMonthInverse(y, m);
      NextMonthDayNumber(py, pm, d);
      NormalizeDay(py, pm, d + DaysInMonth(py, pm))
    else if d > DaysInMonth(y, m) then
      var (ny, nm) := NextMonth(y, m);
      NextMonthDayNumber(y, m, d - DaysInMonth(y, m));
      NormalizeDay(ny, nm, d - DaysInMonth(y, m))
    else
      Date(y, m, d)
  }

  /** The date `new Date(y, m, d)` denotes once the year has been fixed: the
      month is carried into the year first, then the day into the months. */
  function MakeDate(y: int, m: int, d: int): (r: Date)
    ensures r.Valid()
    ensures DayNumberOf(r) == DayNumber(y + m / 12, m % 12, d)
  {
    NormalizeDay(y + m / 12, m % 12, d)
  }

  /** Distinct valid dates have distinct day numbers. */
  lemma {:induction false} DayNumberInjective(a: Date, b: Date)
    requires a.Valid() && b.Valid()
    requires DayNumberOf(a) == DayNumberOf(b)
    ensures a == b
  {
    if a.year < b.year {
      DayNumberBelowNextYear(a);
      DayNumberYearMonotone(a.year + 1, b.year);
      assert false;
    } else if a.year > b.year {
      DayNumberBelowNextYear(b);
      DayNumberYearMonotone(b.year + 1, a.year);
      assert false;
    } else if a.month < b.month {
      DayNumberBelowNextMonth(a, b.month);
      assert false;
    } else if a.month > b.month {
      DayNumberBelowNextMonth(b, a.month);
      assert false;
    }
  }

  lemma DayNumberBelowNextYear(a: Date)
    requires a.Valid()
    ensures DayNumberOf(a) < DaysBeforeYear(a.year + 1)
  {
    YearStep(a.year);
    MonthStep(a.year, 11);
    assert DaysBeforeMonth(a.year, a.month) + DaysInMonth(a.year, a.month)
        <= DaysBeforeMonth(a.year, 11) + DaysInMonth(a.year, 11);
  }

  lemma DayNumberBelowNextMonth(a: Date, m: int)
    requires a.Valid() && a.month < m < 12
    ensures DayNumberOf(a) < DayNumber(a.year, m, 1)
  {
    MonthStep(a.year, a.month);
    assert DaysBeforeMonth(a.year, a.month + 1) <= DaysBeforeMonth(a.year, m);
  }

  lemma {:induction false} DayNumberYearMonotone(y: int, z: int)
    requires y <= z
    ensures DaysBeforeYear(y) <= DaysBeforeYear(z)
    decreases z - y
  {
    if y < z {
      YearStep(y);
      DayNumberYearMonotone(y + 1, z);
    }
  }

  /** `new Date(y, m, d)` reads a year between 0 and 99 as 1900 + y. */
  function ConstructorYear(y: int): (r: int)
    ensures 0 <= y <= 99 ==> r == 1900 + y
    ensures (y < 0 || y > 99) ==> r == y
  {
    if 0 <= y <= 99 then 1900 + y else y
  }

  /** `new Date(y, m, d)`. */
  function ConstructDate(y: int, m: int, d: int): (r: Date)
    ensures r.Valid()
    ensures DayNumberOf(r) == DayNumber(ConstructorYear(y) + m / 12, m % 12, d)
  {
    MakeDate(ConstructorYear(y), m, d)
  }

  /** A valid date is its own normal form. */
  lemma MakeDateOfValid(date: Date)
    requires date.Valid()
    ensures MakeDate(date.year, date.month, date.day) == date
  {
    assert date.month / 12 == 0 && date.month % 12 == date.month;
  }

  /** `new Date(y, m + 1, 0).getDate()` is the length of month m: day 0 of the
      next month is the last day of this one. */
  lemma DayZeroIsLastDay(y: int, m: int)
    requires 0 <= m < 12
    ensures MakeDate(y, m + 1, 0) == Date(y, m, DaysInMonth(y, m))
  {
    var r := MakeDate(y, m + 1, 0);
    var last := Date(y, m, DaysInMonth(y, m));
    var (ny, nm) := NextMonth(y, m);
    assert y + (m + 1) / 12 == ny && (m + 1) % 12 == nm;
    assert DayNumberOf(r) == DayNumber(ny, nm, 0);
    NextMonthDayNumber(y, m, 0);
    assert DayNumberOf(r) == DayNumberOf(last);
    DayNumberInjective(r, last);
  }

  /** The day after the last of a month is the first of the next, so the
      week advances by the month's length. */
  lemma NextMonthWeekday(y: int, m: int)
    requires 0 <= m < 12
    ensures Weekday(DayNumber(NextMonth(y, m).0, NextMonth(y, m).1, 1))
            == (Weekday(DayNumber(y, m, 1)) + DaysInMonth(y, m)) % 7
  {
    NextMonthDayNumber(y, m, 1);
    var a := DayNumber(y, m, 1) + 4;
    ModSevenShift(a % 7 + DaysInMonth(y, m), a / 7);
  }

  lemma KnownWeekdays()
    ensures Weekday(DayNumber(1970, 0, 1)) == 4
    ensures Weekday(DayNumber(2000, 0, 1)) == 6
    ensures Weekday(DayNumber(2023, 8, 1)) == 5
    ensures Weekday(DayNumber(2024, 1, 29)) == 4
    ensures Weekday(DayNumber(1900, 0, 1)) == 1
  {
  }
}
