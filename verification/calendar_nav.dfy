/**
 The calendar dialog's displayed date and its previous/next month buttons.
 The dialog starts on today's date and moves it with `setMonth(getMonth() ± 1)`,
 which keeps the day of the month and lets a day the target month lacks run
 over into the month after it.
 */
module CalendarNav {
  import opened Gregorian

  datatype Direction = Prev | Next

  /** The months a button adds to `getMonth()`. */
  function Delta(direction: Direction): int {
    match direction
    case Next => 1
    case Prev => -1
  }

  /** The month a button aims at: one month on or back, with the year rolling over. */
  function TargetMonth(current: Date, direction: Direction): (r: (int, int))
    requires 0 <= current.month < 12
    ensures 0 <= r.1 < 12
  {
    match direction
    case Next => NextMonth(current.year, current.month)
    case Prev => PrevMonth(current.year, current.month)
  }

  /** `navigateMonth`: `setMonth(getMonth() + 1)` or `setMonth(getMonth() - 1)`
      on the displayed date. The day is kept when the target month has it;
      otherwise it runs over into the month after the target. */
  function NavigateMonth(current: Date, direction: Direction): (r: Date)
    requires current.Valid()
    ensures r.Valid()
    ensures var (ty, tm) := TargetMonth(current, direction);
            && (current.day <= DaysInMonth(ty, tm) ==> r == Date(ty, tm, current.day))
            && (current.day > DaysInMonth(ty, tm) ==>
                  r == Date(NextMonth(ty, tm).0, NextMonth(ty, tm).1, current.day - DaysInMonth(ty, tm)))
  {
    var r := MakeDate(current.year, current.month + Delta(direction), current.day);
    NavigateLands(current, direction, r);
    r
  }

  lemma NavigateLands(current: Date, direction: Direction, r: Date)
    requires current.Valid() && r.Valid()
    requires DayNumberOf(r) == DayNumber(current.year + (current.month + Delta(direction)) / 12,
                                         (current.month + Delta(direction)) % 12, current.day)
    ensures var (ty, tm) := TargetMonth(current, direction);
            && (current.day <= DaysInMonth(ty, tm) ==> r == Date(ty, tm, current.day))
            && (current.day > DaysInMonth(ty, tm) ==>
                  r == Date(NextMonth(ty, tm).0, NextMonth(ty, tm).1, current.day - DaysInMonth(ty, tm)))
  {
    var (ty, tm) := TargetMonth(current, direction);
    var delta := Delta(direction);
    assert current.year + (current.month + delta) / 12 == ty;
    assert (current.month + delta) % 12 == tm;
    if current.day <= DaysInMonth(ty, tm) {
      DayNumberInjective(r, Date(ty, tm, current.day));
    } else {
      var over := current.day - DaysInMonth(ty, tm);
      var (ny, nm) := NextMonth(ty, tm);
      NextMonthDayNumber(ty, tm, over);
      DayNumberInjective(r, Date(ny, nm, over));
    }
  }

  /** At the year's ends the year rolls over: December goes on to January of
      the next year and January back to December of the previous one, the day
      always kept since both have 31 days. */
  lemma YearRollover(y: int, d: int)
    requires 1 <= d <= 31
    ensures NavigateMonth(Date(y, 11, d), Next) == Date(y + 1, 0, d)
    ensures NavigateMonth(Date(y, 0, d), Prev) == Date(y - 1, 11, d)
  {
  }

  /** Stepping forward and then back restores the date exactly when the day
      exists in the month stepped to; otherwise the day has run over and the
      date comes back in the wrong month. */
  lemma NextThenPrev(current: Date)
    requires current.Valid()
    ensures NavigateMonth(NavigateMonth(current, Next), Prev) == current
            <==> current.day <= DaysInMonth(NextMonth(current.year, current.month).0,
                                             NextMonth(current.year, current.month).1)
  {
    PrevNextMonthInverse(current.year, current.month);
    var (ty, tm) := NextMonth(current.year, current.month);
    if current.day > DaysInMonth(ty, tm) {
      PrevNextMonthInverse(ty, tm);
      var back := NavigateMonth(NavigateMonth(current, Next), Prev);
      assert (back.year, back.month) == (ty, tm);
      assert (ty, tm) != (current.year, current.month);
    }
  }

  /** The same for stepping back and then forward. */
  lemma PrevThenNext(current: Date)
    requires current.Valid()
    ensures NavigateMonth(NavigateMonth(current, Prev), Next) == current
            <==> current.day <= DaysInMonth(PrevMonth(current.year, current.month).0,
                                             PrevMonth(current.year, current.month).1)
  {
    PrevNextMonthInverse(current.year, current.month);
    var (ty, tm) := PrevMonth(current.year, current.month);
    if current.day > DaysInMonth(ty, tm) {
      var there := NavigateMonth(current, Prev);
      assert (there.year, there.month) == (current.year, current.month);
      var back := NavigateMonth(there, Next);
      assert back.month != current.month;
    }
  }

  /** Every month has at least 28 days, so from a day up to the 28th the two
      buttons undo each other. */
  lemma RoundTripUpTo28(current: Date)
    requires current.Valid() && current.day <= 28
    ensures NavigateMonth(NavigateMonth(current, Next), Prev) == current
    ensures NavigateMonth(NavigateMonth(current, Prev), Next) == current
  {
    NextThenPrev(current);
    PrevThenNext(current);
  }

  /** From 31 January 2023 the next button shows March, skipping February,
      and the previous button then shows February, not January. */
  lemma JanuaryThirtyFirstSkipsFebruary()
    ensures NavigateMonth(Date(2023, 0, 31), Next) == Date(2023, 2, 3)
    ensures NavigateMonth(Date(2023, 2, 3), Prev) == Date(2023, 1, 3)
    ensures NavigateMonth(NavigateMonth(Date(2023, 0, 31), Next), Prev) != Date(2023, 0, 31)
  {
  }

  /** Month navigation as evidently intended: the displayed month moves by
      exactly one, the day clamped to the length of the target month. */
  function NavigateMonthClamped(current: Date, direction: Direction): (r: Date)
    requires current.Valid()
    ensures r.Valid()
    ensures (r.year, r.month) == TargetMonth(current, direction)
    ensures r.day == current.day || (r.day < current.day && r.day == DaysInMonth(r.year, r.month))
  {
    var (ty, tm) := TargetMonth(current, direction);
    var last := DaysInMonth(ty, tm);
    Date(ty, tm, if current.day <= last then current.day else last)
  }

  /** With clamping, back-and-forth always returns to the displayed month,
      and to the very date when the day existed in the month visited. */
  lemma ClampedRoundTrip(current: Date, direction: Direction)
    requires current.Valid()
    ensures var there := NavigateMonthClamped(current, direction);
            var back := NavigateMonthClamped(there, match direction case Next => Prev case Prev => Next);
            && (back.year, back.month) == (current.year, current.month)
            && (current.day <= DaysInMonth(there.year, there.month) ==> back == current)
  {
    PrevNextMonthInverse(current.year, current.month);
  }

  /** Where the day fits the target month, the clamped and the as-written
      navigation agree. */
  lemma ClampedAgreesWhenDayFits(current: Date, direction: Direction)
    requires current.Valid()
    requires current.day <= DaysInMonth(TargetMonth(current, direction).0, TargetMonth(current, direction).1)
    ensures NavigateMonthClamped(current, direction) == NavigateMonth(current, direction)
  {
  }
}
