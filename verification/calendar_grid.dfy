/**
 The calendar dialog's month grid: rows of seven cells, Sunday first, each cell
 either empty (`null`) or a day of the displayed month carrying whether it is
 today and whether it has an event dot.
 */
module CalendarGrid {
  import opened Wrappers
  import opened Gregorian

  datatype Cell = Cell(date: int, isToday: bool, hasEvent: bool)

  type Week = seq<Option<Cell>>

  type Grid = seq<Week>

  /** Days of every month that show an event dot. */
  const EventDays: set<int> := {5, 12, 19, 26}

  /** The weekday of the first of the displayed month, which is the number
      of empty cells that open the grid. */
  function FirstDay(year: int, month: int): (w: int)
    requires 0 <= month < 12
    ensures 0 <= w < 7
  {
    Weekday(DayNumber(ConstructorYear(year), month, 1))
  }

  /** The length of the displayed month. */
  function MonthLength(year: int, month: int): (n: int)
    requires 0 <= month < 12
    ensures 28 <= n <= 31
  {
    DaysInMonth(ConstructorYear(year), month)
  }

  /** The grid's first weekday is `new Date(year, month, 1).getDay()`, and
      its length is `new Date(year, month + 1, 0).getDate()`: day 0 of the
      next month is the last day of this one. */
  lemma ConstructedMonth(year: int, month: int)
    requires 0 <= month < 12
    ensures FirstDay(year, month) == Weekday(DayNumberOf(ConstructDate(year, month, 1)))
    ensures MonthLength(year, month) == ConstructDate(year, month + 1, 0).day
  {
    assert month / 12 == 0 && month % 12 == month;
    DayZeroIsLastDay(ConstructorYear(year), month);
  }

  /** The cell for day `n` of the displayed month. */
  function DayCell(shown: Date, today: Date, n: int): Cell {
    Cell(n, n == today.day && shown.month == today.month && shown.year == today.year,
         n in EventDays)
  }

  /** Number of days laid out in the first `p` slots (row-major) of the grid. */
  function Placed(firstDay: int, days: int, p: int): int {
    if p <= firstDay then 0 else if p - firstDay >= days then days else p - firstDay
  }

  /** How one more slot changes the count of laid-out days: a slot before the
      first day or after the last stays empty, any other takes the next day. */
  lemma PlacedStep(firstDay: int, days: int, p: int)
    requires 0 <= firstDay && 0 <= days && 0 <= p
    ensures p < firstDay ==> Placed(firstDay, days, p + 1) == 0
    ensures firstDay <= p && Placed(firstDay, days, p) == days ==> Placed(firstDay, days, p + 1) == days && p >= firstDay + days
    ensures firstDay <= p && Placed(firstDay, days, p) < days ==>
              Placed(firstDay, days, p + 1) == Placed(firstDay, days, p) + 1 && p - firstDay + 1 == Placed(firstDay, days, p) + 1 && p < firstDay + days
  {
  }

  /** Number of rows: enough to hold the blanks and every day, and no more. */
  function RowCount(firstDay: int, days: int): int {
    (firstDay + days + 6) / 7
  }

  /** The week loop stops at the row holding the last day, which is at most
      the sixth row. */
  lemma RowLimit(firstDay: int, days: int, i: int)
    requires 0 <= firstDay < 7 && 0 < days <= 31 && 0 <= i
    ensures Placed(firstDay, days, 7 * i) < days ==> i < RowCount(firstDay, days)
    ensures Placed(firstDay, days, 7 * i) < days && Placed(firstDay, days, 7 * i + 7) == days
            ==> i + 1 == RowCount(firstDay, days)
    ensures Placed(firstDay, days, 42) == days
    ensures RowCount(firstDay, days) <= 6
  {
  }

  /** A slot holding a day lies in one of the rows the grid has. */
  lemma SlotRow(firstDay: int, days: int, i: int, j: int)
    requires 0 <= j < 7 && firstDay <= 7 * i + j < firstDay + days
    ensures 0 <= firstDay ==> 0 <= i
    ensures i < RowCount(firstDay, days)
  {
  }

  /** Reference layout: the cell in row-major slot `p` is day p - firstDay + 1
      when that is a day of the month, and empty otherwise. */
  function SlotCell(shown: Date, today: Date, firstDay: int, days: int, p: int): Option<Cell> {
    if firstDay <= p < firstDay + days then Some(DayCell(shown, today, p - firstDay + 1)) else None
  }

  function LayoutRow(shown: Date, today: Date, firstDay: int, days: int, i: int): Week {
    seq(7, j => SlotCell(shown, today, firstDay, days, 7 * i + j))
  }

  lemma LayoutRowSlot(shown: Date, today: Date, firstDay: int, days: int, i: int, j: int)
    requires 0 <= j < 7
    ensures |LayoutRow(shown, today, firstDay, days, i)| == 7
    ensures LayoutRow(shown, today, firstDay, days, i)[j] == SlotCell(shown, today, firstDay, days, 7 * i + j)
  {
  }

  function Layout(shown: Date, today: Date, firstDay: int, days: int): Grid
    requires 0 <= firstDay && 0 <= days
  {
    seq(RowCount(firstDay, days), i => LayoutRow(shown, today, firstDay, days, i))
  }

  /** The grid of the month `shown` lies in, as the reference layout gives it. */
  function MonthLayout(shown: Date, today: Date): Grid
    requires 0 <= shown.month < 12
  {
    Layout(shown, today, FirstDay(shown.year, shown.month), MonthLength(shown.year, shown.month))
  }

  /** One pass of the inner loop of `generateCalendar`: fills week `i`,
      starting from day `dateCount`, and returns the next day to place. */
  method BuildWeek(shown: Date, today: Date, firstDay: int, daysInMonth: int, i: int, dateCount: int)
    returns (week: Week, nextCount: int)
    requires 0 <= firstDay < 7 && 0 < daysInMonth && 0 <= i
    requires dateCount == Placed(firstDay, daysInMonth, 7 * i) + 1
    ensures week == LayoutRow(shown, today, firstDay, daysInMonth, i)
    ensures nextCount == Placed(firstDay, daysInMonth, 7 * i + 7) + 1
  {
    week := [];
    nextCount := dateCount;
    for j := 0 to 7
      invariant |week| == j
      invariant forall l :: 0 <= l < j ==> week[l] == SlotCell(shown, today, firstDay, daysInMonth, 7 * i + l)
      invariant nextCount == Placed(firstDay, daysInMonth, 7 * i + j) + 1
    {
      ghost var p := 7 * i + j;
      PlacedStep(firstDay, daysInMonth, p);
      ghost var slot := SlotCell(shown, today, firstDay, daysInMonth, p);
      ghost var before := week;
      if i == 0 && j < firstDay {
        assert slot == None;
        week := week + [None];
      } else if nextCount > daysInMonth {
        assert slot == None;
        week := week + [None];
      } else {
        assert slot == Some(DayCell(shown, today, nextCount));
        week := week + [Some(DayCell(shown, today, nextCount))];
        nextCount := nextCount + 1;
      }
      assert week == before + [slot];
    }
    ghost var row := LayoutRow(shown, today, firstDay, daysInMonth, i);
    forall l | 0 <= l < 7
      ensures week[l] == row[l]
    {
      LayoutRowSlot(shown, today, firstDay, daysInMonth, i, l);
    }
  }

  /** A grid whose rows are the reference rows, as many as the layout has,
      is the layout. */
  lemma RowsMakeLayout(shown: Date, today: Date, firstDay: int, days: int, g: Grid)
    requires 0 <= firstDay && 0 <= days
    requires |g| == RowCount(firstDay, days)
    requires forall k :: 0 <= k < |g| ==> g[k] == LayoutRow(shown, today, firstDay, days, k)
    ensures g == Layout(shown, today, firstDay, days)
    ensures forall k :: 0 <= k < |g| ==> |g[k]| == 7
  {
  }

  /** `generateCalendar`: the first weekday and the length of the displayed
      month are read off constructed dates, then the weeks are filled. */
  method GenerateCalendar(shown: Date, today: Date) returns (calendar: Grid)
    requires shown.Valid()
    ensures calendar == MonthLayout(shown, today)
    ensures 1 <= |calendar| <= 6
    ensures forall i :: 0 <= i < |calendar| ==> |calendar[i]| == 7
  {
    var year, month := shown.year, shown.month;
    var firstDay := Weekday(DayNumberOf(ConstructDate(year, month, 1)));
    var daysInMonth := ConstructDate(year, month + 1, 0).day;
    ConstructedMonth(year, month);
    calendar := FillWeeks(shown, today, firstDay, daysInMonth);
  }

  /** The loops of `generateCalendar`: up to six weeks are filled, the first
      `firstDay` cells of week 0 and every cell after the last day left
      empty, and the loop stops after the week that holds the last day. */
  method FillWeeks(shown: Date, today: Date, firstDay: int, daysInMonth: int) returns (calendar: Grid)
    requires 0 <= firstDay < 7 && 28 <= daysInMonth <= 31
    ensures calendar == Layout(shown, today, firstDay, daysInMonth)
    ensures 1 <= |calendar| <= 6
    ensures forall i :: 0 <= i < |calendar| ==> |calendar[i]| == 7
  {
    RowLimit(firstDay, daysInMonth, 0);
    calendar := [];
    var dateCount := 1;
    for i := 0 to 6
      invariant |calendar| == i
      invariant forall k :: 0 <= k < i ==> calendar[k] == LayoutRow(shown, today, firstDay, daysInMonth, k)
      invariant dateCount == Placed(firstDay, daysInMonth, 7 * i) + 1
      invariant dateCount <= daysInMonth
    {
      RowLimit(firstDay, daysInMonth, i);
      var week;
      week, dateCount := BuildWeek(shown, today, firstDay, daysInMonth, i, dateCount);
      calendar := calendar + [week];
      if dateCount > daysInMonth {
        RowsMakeLayout(shown, today, firstDay, daysInMonth, calendar);
        break;
      }
    }
  }

  /** Row `i`, column `j` of the layout is row-major slot 7 * i + j. */
  lemma LayoutCell(shown: Date, today: Date, i: int, j: int)
    requires 0 <= shown.month < 12
    requires 0 <= i < |MonthLayout(shown, today)| && 0 <= j < 7
    ensures |MonthLayout(shown, today)[i]| == 7
    ensures MonthLayout(shown, today)[i][j]
            == SlotCell(shown, today, FirstDay(shown.year, shown.month),
                        MonthLength(shown.year, shown.month), 7 * i + j)
  {
    LayoutRowSlot(shown, today, FirstDay(shown.year, shown.month),
                  MonthLength(shown.year, shown.month), i, j);
  }

  /** Every week has seven cells; there are between four and six weeks, and
      exactly as many as the blanks and days need: ceil((firstDay + days) / 7). */
  lemma GridShape(shown: Date, today: Date)
    requires 0 <= shown.month < 12
    ensures var g := MonthLayout(shown, today);
            var fd, n := FirstDay(shown.year, shown.month), MonthLength(shown.year, shown.month);
            && 4 <= |g| <= 6
            && 7 * (|g| - 1) < fd + n <= 7 * |g|
            && forall i :: 0 <= i < |g| ==> |g[i]| == 7
  {
    var fd, n := FirstDay(shown.year, shown.month), MonthLength(shown.year, shown.month);
    RowLimit(fd, n, 0);
  }

  /** Week 0 opens with exactly `firstDay` empty cells, followed by day 1. */
  lemma LeadingBlanks(shown: Date, today: Date)
    requires 0 <= shown.month < 12
    ensures var g := MonthLayout(shown, today);
            var fd := FirstDay(shown.year, shown.month);
            && |g| > 0 && |g[0]| == 7
            && (forall j :: 0 <= j < fd ==> g[0][j] == None)
            && g[0][fd].Some? && g[0][fd].value.date == 1
  {
    GridShape(shown, today);
    var g := MonthLayout(shown, today);
    var fd := FirstDay(shown.year, shown.month);
    forall j | 0 <= j <= fd
      ensures g[0][j] == SlotCell(shown, today, fd, MonthLength(shown.year, shown.month), j)
    {
      LayoutCell(shown, today, 0, j);
    }
  }

  /** Every cell after the last day is empty, and the last week holds the
      last day, so no all-empty week trails the month. */
  lemma TrailingBlanks(shown: Date, today: Date)
    requires 0 <= shown.month < 12
    ensures var g := MonthLayout(shown, today);
            var fd, n := FirstDay(shown.year, shown.month), MonthLength(shown.year, shown.month);
            && (forall i, j :: 0 <= i < |g| && 0 <= j < 7 && 7 * i + j >= fd + n ==> g[i][j] == None)
            && |g| > 0 && 0 <= fd + n - 1 - 7 * (|g| - 1) < 7 && |g[|g| - 1]| == 7
            && g[|g| - 1][fd + n - 1 - 7 * (|g| - 1)] == Some(DayCell(shown, today, n))
  {
    var g := MonthLayout(shown, today);
    var fd, n := FirstDay(shown.year, shown.month), MonthLength(shown.year, shown.month);
    GridShape(shown, today);
    forall i, j | 0 <= i < |g| && 0 <= j < 7 && 7 * i + j >= fd + n
      ensures g[i][j] == None
    {
      LayoutCell(shown, today, i, j);
    }
    var last := fd + n - 1;
    var j := last - 7 * (|g| - 1);
    LayoutCell(shown, today, |g| - 1, j);
    assert g[|g| - 1][j] == Some(DayCell(shown, today, n));
  }

  /** A present cell of any month's layout is marked today exactly when its
      day, the displayed month and the displayed year are today's, and has an
      event dot exactly when its day is one of 5, 12, 19 and 26. */
  lemma CellMarks(shown: Date, today: Date, firstDay: int, days: int, i: int, j: int)
    requires 0 <= firstDay && 0 <= days
    requires 0 <= i < RowCount(firstDay, days) && 0 <= j < 7
    ensures var cell := Layout(shown, today, firstDay, days)[i][j];
            cell.Some? ==>
              && 1 <= cell.value.date <= days
              && (cell.value.isToday <==> cell.value.date == today.day && shown.month == today.month
                                          && shown.year == today.year)
              && (cell.value.hasEvent <==> cell.value.date in EventDays)
  {
    LayoutRowSlot(shown, today, firstDay, days, i, j);
  }

  /** At most one cell of any month's layout is marked today, and none unless
      the displayed month and year are today's. */
  lemma AtMostOneToday(shown: Date, today: Date, firstDay: int, days: int, i: int, j: int, i': int, j': int)
    requires 0 <= firstDay && 0 <= days
    requires 0 <= i < RowCount(firstDay, days) && 0 <= j < 7
    requires 0 <= i' < RowCount(firstDay, days) && 0 <= j' < 7
    ensures var g := Layout(shown, today, firstDay, days);
            g[i][j].Some? && g[i][j].value.isToday ==>
              && shown.month == today.month && shown.year == today.year
              && (g[i'][j'].Some? && g[i'][j'].value.isToday ==> i == i' && j == j')
  {
    LayoutRowSlot(shown, today, firstDay, days, i, j);
    LayoutRowSlot(shown, today, firstDay, days, i', j');
  }

  /** When today lies in the displayed month, the cell in its slot is
      present, carries today's day and is marked today. */
  lemma TodayIsMarked(shown: Date, today: Date, i: int, j: int)
    requires 0 <= shown.month < 12
    requires shown.month == today.month && shown.year == today.year
    requires 1 <= today.day <= MonthLength(shown.year, shown.month)
    requires 0 <= j < 7 && 7 * i + j == FirstDay(shown.year, shown.month) + today.day - 1
    ensures 0 <= i < |MonthLayout(shown, today)|
    ensures MonthLayout(shown, today)[i][j] == Some(DayCell(shown, today, today.day))
    ensures MonthLayout(shown, today)[i][j].value.isToday
  {
    var fd, n := FirstDay(shown.year, shown.month), MonthLength(shown.year, shown.month);
    SlotRow(fd, n, i, j);
    LayoutCell(shown, today, i, j);
    assert SlotCell(shown, today, fd, n, 7 * i + j) == Some(DayCell(shown, today, today.day));
  }

  /** The cells of a grid read row by row. */
  function Flatten(g: Grid): seq<Option<Cell>> {
    if g == [] then [] else Flatten(g[..|g| - 1]) + g[|g| - 1]
  }

  /** The day numbers of the present cells, in order. */
  function PresentDates(cells: seq<Option<Cell>>): seq<int> {
    if cells == [] then []
    else PresentDates(cells[..|cells| - 1])
         + (match cells[|cells| - 1] case Some(c) => [c.date] case None => [])
  }

  function Slots(shown: Date, today: Date, firstDay: int, days: int, k: nat): seq<Option<Cell>> {
    seq(k, p => SlotCell(shown, today, firstDay, days, p))
  }

  lemma {:induction false} FlattenLayout(shown: Date, today: Date, firstDay: int, days: int, r: nat)
    requires 0 <= firstDay && 0 <= days && r <= RowCount(firstDay, days)
    ensures Flatten(Layout(shown, today, firstDay, days)[..r]) == Slots(shown, today, firstDay, days, 7 * r)
  {
    var g := Layout(shown, today, firstDay, days);
    if r > 0 {
      FlattenLayout(shown, today, firstDay, days, r - 1);
      assert g[..r][..r - 1] == g[..r - 1];
      var row := g[r - 1];
      forall j | 0 <= j < 7
        ensures row[j] == SlotCell(shown, today, firstDay, days, 7 * (r - 1) + j)
      {
        LayoutRowSlot(shown, today, firstDay, days, r - 1, j);
      }
      assert Slots(shown, today, firstDay, days, 7 * (r - 1)) + row == Slots(shown, today, firstDay, days, 7 * r);
    } else {
      assert g[..r] == [];
    }
  }

  lemma {:induction false} DatesOfSlots(shown: Date, today: Date, firstDay: int, days: int, k: nat)
    requires 0 <= firstDay && 0 <= days
    ensures PresentDates(Slots(shown, today, firstDay, days, k))
            == seq(Placed(firstDay, days, k), d => d + 1)
  {
    if k > 0 {
      var s := Slots(shown, today, firstDay, days, k);
      assert s[..k - 1] == Slots(shown, today, firstDay, days, k - 1);
      DatesOfSlots(shown, today, firstDay, days, k - 1);
      PlacedStep(firstDay, days, k - 1);
    }
  }

  /** Read row by row, the present cells are exactly the days 1, 2, ..., n of
      the month, without gaps or repeats. */
  lemma {:induction false} DaysInRowMajorOrder(shown: Date, today: Date)
    requires 0 <= shown.month < 12
    ensures PresentDates(Flatten(MonthLayout(shown, today)))
            == seq(MonthLength(shown.year, shown.month), d => d + 1)
  {
    var fd, n := FirstDay(shown.year, shown.month), MonthLength(shown.year, shown.month);
    var g := MonthLayout(shown, today);
    var r := RowCount(fd, n);
    FlattenLayout(shown, today, fd, n, r);
    assert g[..r] == g;
    DatesOfSlots(shown, today, fd, n, 7 * r);
    RowLimit(fd, n, 0);
  }

  /** The next month's grid opens where this month's grid ended: its leading
      blanks are (firstDay + days) mod 7. The only exceptions are the two
      Decembers whose following January crosses the edge of the two-digit
      year range, 99 and -1. */
  lemma NextMonthContinues(y: int, m: int)
    requires 0 <= m < 12 && !(m == 11 && (y == 99 || y == -1))
    ensures FirstDay(NextMonth(y, m).0, NextMonth(y, m).1) == (FirstDay(y, m) + MonthLength(y, m)) % 7
  {
    var c := ConstructorYear(y);
    assert ConstructorYear(NextMonth(y, m).0) == NextMonth(c, m).0;
    NextMonthWeekday(c, m);
  }

  lemma September2023Month()
    ensures FirstDay(2023, 8) == 5 && MonthLength(2023, 8) == 30
  {
    KnownWeekdays();
  }

  /** The layout of a 30-day month opening on a Friday, seen on its 15th. */
  lemma FridayThirtyLayout(shown: Date, today: Date)
    requires shown.month == today.month && shown.year == today.year && today.day == 15
    ensures var g := Layout(shown, today, 5, 30);
            && |g| == 5
            && g[2][5] == Some(Cell(15, true, false))
            && g[0][5] == Some(Cell(1, false, false))
            && g[0][4] == None
            && g[1][2] == Some(Cell(5, false, true))
            && g[3][2] == Some(Cell(19, false, true)) && g[4][6] == Some(Cell(30, false, false))
  {
    LayoutRowSlot(shown, today, 5, 30, 2, 5);
    LayoutRowSlot(shown, today, 5, 30, 0, 5);
    LayoutRowSlot(shown, today, 5, 30, 0, 4);
    LayoutRowSlot(shown, today, 5, 30, 1, 2);
    LayoutRowSlot(shown, today, 5, 30, 3, 2);
    LayoutRowSlot(shown, today, 5, 30, 4, 6);
  }

  /** September 2023 begins on a Friday and has 30 days; seen on 15 September
      2023, its grid has five weeks, day 15 marked today in week 2, column 5,
      event dots on the 5th and 19th, and day 30 closing the last week. */
  lemma September2023()
    ensures var g := MonthLayout(Date(2023, 8, 1), Date(2023, 8, 15));
            && |g| == 5
            && g[2][5] == Some(Cell(15, true, false))
            && g[0][5] == Some(Cell(1, false, false))
            && g[0][4] == None
            && g[1][2] == Some(Cell(5, false, true))
            && g[3][2] == Some(Cell(19, false, true)) && g[4][6] == Some(Cell(30, false, false))
  {
    September2023Month();
    FridayThirtyLayout(Date(2023, 8, 1), Date(2023, 8, 15));
  }
}
