/**
 * The day frames of the month and week views: the month grid with its
 * leading empty cells, and the Sunday-to-Saturday week around a day.
 * Both screens define these the same way.
 */
module Grid {
  import opened Wrappers
  import opened CivilDate

  /**
   * `new Date(year, month, 1).getDay()`: the weekday of the 1st of the
   * month the constructor denotes, which is the number of empty cells
   * before it.
   */
  function LeadingBlanks(y: int, m: int): (w: int)
    requires 0 <= m < 12
    ensures 0 <= w < 7
    ensures w == Weekday(NewDate(y, m, 1))
  {
    NewDateInRange(y, m, 1);
    Weekday(Date(ConstructorYear(y), m, 1))
  }

  /** In the month grid, the cell at index `j` holds a day whose weekday is `j % 7`. */
  lemma GridColumnIsWeekday(y: int, m: int, j: int)
    requires 0 <= m < 12
    requires LeadingBlanks(y, m) <= j < LeadingBlanks(y, m) + DaysInMonth(ConstructorYear(y), m)
    ensures Weekday(Date(ConstructorYear(y), m, j - LeadingBlanks(y, m) + 1)) == j % 7
  {
    var w, first := LeadingBlanks(y, m), Date(ConstructorYear(y), m, 1);
    AddDaysWithinMonth(first, j - w);
    WeekdayOfAddDays(first, j - w);
  }

  /** `w` empty cells, then days 1 to the last day of month `m` of year `y`, in order, and nothing after. */
  predicate MonthCells(days: seq<Option<Date>>, y: int, m: int, w: nat)
    requires 0 <= m < 12
  {
    |days| == w + DaysInMonth(y, m)
    && (forall i :: 0 <= i < w ==> days[i] == None)
    && (forall i :: w <= i < |days| ==> days[i] == Some(Date(y, m, i - w + 1)))
  }

  /**
   * `getDaysInMonth`: as many empty cells as the weekday of the 1st
   * (Sunday = 0), then every day of the month in order.  There is no
   * padding after the last day.  The month is the one the `Date`
   * constructor denotes, so a year from 0 to 99 lays out that month of
   * 1900 to 1999.
   */
  method GetDaysInMonth(date: Date) returns (days: seq<Option<Date>>)
    requires ValidDate(date)
    ensures MonthCells(days, ConstructorYear(date.year), date.month, LeadingBlanks(date.year, date.month))
    ensures forall i :: 0 <= i < |days| && days[i].Some? ==> Weekday(days[i].value) == i % 7
  {
    var year, month := date.year, date.month;
    var firstDay := NewDate(year, month, 1);
    var lastDay := NewDate(year, month + 1, 0);
    NewDateInRange(year, month, 1);
    NewDateLastDay(year, month);
    var daysInMonth := lastDay.day;
    var startingDayOfWeek := Weekday(firstDay);
    ghost var y := ConstructorYear(year);
    assert startingDayOfWeek == LeadingBlanks(year, month);
    assert daysInMonth == DaysInMonth(y, month);

    days := [];
    var i := 0;
    while i < startingDayOfWeek
      invariant 0 <= i <= startingDayOfWeek
      invariant |days| == i
      invariant forall j :: 0 <= j < i ==> days[j] == None
    {
      days := days + [None];
      i := i + 1;
    }

    i := 1;
    while i <= daysInMonth
      invariant 1 <= i <= daysInMonth + 1
      invariant |days| == startingDayOfWeek + i - 1
      invariant forall j :: 0 <= j < startingDayOfWeek ==> days[j] == None
      invariant forall j :: startingDayOfWeek <= j < |days| ==>
                  days[j] == Some(NewDate(year, month, j - startingDayOfWeek + 1))
    {
      days := days + [Some(NewDate(year, month, i))];
      i := i + 1;
    }
    forall j | startingDayOfWeek <= j < |days|
      ensures days[j] == Some(Date(y, month, j - startingDayOfWeek + 1))
      ensures Weekday(days[j].value) == j % 7
    {
      NewDateInRange(year, month, j - startingDayOfWeek + 1);
      GridColumnIsWeekday(year, month, j);
    }
    assert MonthCells(days, y, month, startingDayOfWeek);
  }

  /**
   * February of year 0 is laid out as February 1900: four empty cells (1
   * February 1900 was a Thursday) and 28 days, not the 29 days of year 0.
   */
  lemma MonthGridShortYearExample()
    ensures LeadingBlanks(0, 1) == 4
    ensures DaysInMonth(ConstructorYear(0), 1) == 28 && DaysInMonth(0, 1) == 29
  {
    assert ConstructorYear(0) == 1900;
    assert DayNumber(Date(1900, 1, 1)) == -25536;
  }

  /**
   * `getWeekDays`: the Sunday of `date`'s week is found with
   * `setDate(getDate() - getDay())`, and the seven days from it with
   * `setDate(sunday.getDate() + i)`.
   */
  function WeekDays(date: Date): (week: seq<Date>)
    requires ValidDate(date)
    ensures |week| == 7 && forall i :: 0 <= i < 7 ==> ValidDate(week[i])
  {
    var dayOfWeek := Weekday(date);
    var sunday := SetDate(date, date.day - dayOfWeek);
    var week := seq(7, i => SetDate(sunday, sunday.day + i));
    assert forall i :: 0 <= i < 7 ==> week[i] == SetDate(sunday, sunday.day + i);
    week
  }

  /** The `i`-th day of the week is `date` moved by `i - getDay()` days. */
  lemma WeekDayAt(date: Date, i: int)
    requires ValidDate(date) && 0 <= i < 7
    ensures WeekDays(date)[i] == AddDays(date, i - Weekday(date))
    ensures Weekday(WeekDays(date)[i]) == i
  {
    var w := Weekday(date);
    WeekDayFromSunday(date, i);
    WeekdayOfAddDays(date, i - w);
    assert Weekday(WeekDays(date)[i]) == i % 7 by {
      assert w + (i - w) == i;
    }
    SmallWeekday(i);
  }

  lemma SmallWeekday(i: int)
    requires 0 <= i < 7
    ensures i % 7 == i
  {
  }

  lemma WeekDayFromSunday(date: Date, i: int)
    requires ValidDate(date) && 0 <= i < 7
    ensures WeekDays(date)[i] == AddDays(date, i - Weekday(date))
  {
    var w := Weekday(date);
    WeekDaySetDate(date, i);
    SundayOfWeek(date, w);
    WeekDayOfSunday(AddDays(date, -w), date, w, i);
  }

  /** The `i`-th day of the week is the Sunday's `setDate(getDate() + i)`. */
  lemma WeekDaySetDate(date: Date, i: int)
    requires ValidDate(date) && 0 <= i < 7
    ensures var sunday := SetDate(date, date.day - Weekday(date));
            WeekDays(date)[i] == SetDate(sunday, sunday.day + i)
  {
  }

  /** `setDate(getDate() - w)` moves back `w` days. */
  lemma SundayOfWeek(date: Date, w: int)
    requires ValidDate(date)
    ensures SetDate(date, date.day - w) == AddDays(date, -w)
  {
    SetDateShifts(date, -w);
    assert date.day + -w == date.day - w;
  }

  lemma WeekDayOfSunday(sunday: Date, date: Date, w: int, i: int)
    requires ValidDate(date) && sunday == AddDays(date, -w)
    ensures SetDate(sunday, sunday.day + i) == AddDays(date, i - w)
  {
    SetDateShifts(sunday, i);
    AddDaysAdditive(date, -w, i);
    assert -w + i == i - w;
  }

  /**
   * The week is seven consecutive days, Sunday to Saturday, and holds
   * `date` at the index of its weekday, also when it crosses the end of
   * a month or a year.
   */
  lemma WeekDaysAreTheWeek(date: Date)
    requires ValidDate(date)
    ensures forall i :: 0 <= i < 7 ==> Weekday(WeekDays(date)[i]) == i
    ensures forall i :: 0 <= i < 6 ==> WeekDays(date)[i + 1] == NextDay(WeekDays(date)[i])
    ensures WeekDays(date)[Weekday(date)] == date
  {
    var w := Weekday(date);
    var week := WeekDays(date);
    forall i | 0 <= i < 7
      ensures Weekday(week[i]) == i
    {
      WeekDayAt(date, i);
    }
    forall i | 0 <= i < 6
      ensures week[i + 1] == NextDay(week[i])
    {
      WeekDayAt(date, i);
      WeekDayAt(date, i + 1);
      AddDaysAdditive(date, i - w, 1);
      assert AddDays(week[i], 1) == AddDays(NextDay(week[i]), 0);
    }
    WeekDayAt(date, w);
  }
}
