/**
 * Date navigation shared by both screens: the previous/next arrows
 * (`changeDate`), the "Today" button (`goToToday`), the view menu and
 * tapping a day; and the week label of the calendar screen's header,
 * which names two months when the visible week crosses a month boundary.
 */
module Navigation {
  import opened CivilDate
  import opened Grid

  datatype View = DayView | WeekView | MonthView

  /**
   * `changeDate(direction)` on a copy of the current date: `setDate` by one
   * day or by seven days, or `setMonth` by one month.
   */
  function Shift(d: Date, view: View, direction: int): (r: Date)
    ensures ValidDate(r)
  {
    match view
    case DayView => SetDate(d, d.day + direction)
    case WeekView => SetDate(d, d.day + direction * 7)
    case MonthView => SetMonth(d, d.month + direction)
  }

  /** In the day and week views the arrows move by exactly one day and by exactly seven days. */
  lemma ShiftDayAndWeek(d: Date, direction: int)
    requires ValidDate(d)
    ensures Shift(d, DayView, direction) == AddDays(d, direction)
    ensures Shift(d, WeekView, direction) == AddDays(d, 7 * direction)
  {
    SetDateShifts(d, direction);
    SetDateShifts(d, direction * 7);
  }

  /** Measured in day numbers, the steps are `direction` and `7 * direction` days; a week step keeps the weekday. */
  lemma ShiftDayAndWeekDistance(d: Date, direction: int)
    requires ValidDate(d)
    ensures DayNumber(Shift(d, DayView, direction)) == DayNumber(d) + direction
    ensures DayNumber(Shift(d, WeekView, direction)) == DayNumber(d) + 7 * direction
    ensures Weekday(Shift(d, WeekView, direction)) == Weekday(d)
  {
    ShiftDayAndWeek(d, direction);
    DayNumberOfAddDays(d, direction);
    DayNumberOfAddDays(d, 7 * direction);
    WeekdayOfAddDays(d, 7 * direction);
    WholeWeeks(Weekday(d), direction);
  }

  lemma WholeWeeks(w: int, k: int)
    requires 0 <= w < 7
    ensures (w + 7 * k) % 7 == w
  {
    assert w + 7 * k == 7 * k + w;
  }

  /** Forward then back (or back then forward) returns to the same day in the day and week views. */
  lemma ShiftDayAndWeekUndo(d: Date, view: View, direction: int)
    requires ValidDate(d) && view != MonthView
    ensures Shift(Shift(d, view, direction), view, -direction) == d
  {
    var e := Shift(d, view, direction);
    ShiftDayAndWeek(d, direction);
    ShiftDayAndWeek(e, -direction);
    if view == DayView {
      AddDaysRoundTrip(d, direction);
    } else {
      AddDaysRoundTrip(d, 7 * direction);
    }
  }

  /** A week-view step moves each of the seven visible days by seven days. */
  lemma WeekShiftMovesTheWeek(d: Date, direction: int, i: int)
    requires ValidDate(d) && 0 <= i < 7
    ensures WeekDays(Shift(d, WeekView, direction))[i] == AddDays(WeekDays(d)[i], 7 * direction)
  {
    var e := Shift(d, WeekView, direction);
    var w, k := Weekday(d), 7 * direction;
    ShiftDayAndWeek(d, direction);
    ShiftDayAndWeekDistance(d, direction);
    assert Weekday(e) == w;
    WeekDayAt(d, i);
    WeekDayAt(e, i);
    assert WeekDays(e)[i] == AddDays(AddDays(d, k), i - w);
    AddDaysAdditive(d, k, i - w);
    AddDaysAdditive(d, i - w, k);
  }

  /** Months counted from year 0: consecutive months differ by one, also across a new year. */
  function MonthIndex(d: Date): int {
    12 * d.year + d.month
  }

  /**
   * A month-view step moves `direction` months and keeps the day of the
   * month when the target month is long enough; otherwise the excess days
   * spill into the month after it.
   */
  lemma MonthShiftMoves(d: Date, direction: int)
    requires ValidDate(d)
    ensures var ty, tm := d.year + (d.month + direction) / 12, (d.month + direction) % 12;
            var dim := DaysInMonth(ty, tm);
            var r := Shift(d, MonthView, direction);
            if d.day <= dim then MonthIndex(r) == MonthIndex(d) + direction && r.day == d.day
            else MonthIndex(r) == MonthIndex(d) + direction + 1 && r.day == d.day - dim
  {
    var n := d.month + direction;
    var ty, tm := d.year + n / 12, n % 12;
    var dim := DaysInMonth(ty, tm);
    SetMonthRollover(d, n);
    assert 12 * ty + tm == MonthIndex(d) + direction;
    if d.day > dim {
      AddDaysWithinMonth(Date(ty + (tm + 1) / 12, (tm + 1) % 12, 1), d.day - dim - 1);
    }
  }

  /** Month steps are not undone by the opposite step: 31 January, +1 month, -1 month is 3 February. */
  lemma MonthShiftNotUndone()
    ensures Shift(Shift(Date(2025, 0, 31), MonthView, 1), MonthView, -1) == Date(2025, 1, 3)
  {
    SetMonthOverflowExample();
    SetMonthRollover(Date(2025, 2, 3), 1);
    MakeDayInRange(2025, 1, 3);
  }

  // ---------------------------------------------------------------------
  // The calendar screen's header.
  // ---------------------------------------------------------------------

  /**
   * What the calendar screen's header names: the full date (day view), a
   * month and year, or two months and the year of the first.  The locale
   * spelling of month names is left to the display.
   */
  datatype Header =
    | FullDate(date: Date)
    | MonthAndYear(month: int, year: int)
    | MonthRange(first: int, second: int, year: int)

  /** `getDisplayText` of the calendar screen. */
  function CalendarHeader(d: Date, view: View): Header
    requires ValidDate(d)
  {
    match view
    case DayView => FullDate(d)
    case MonthView => MonthAndYear(d.month, d.year)
    case WeekView =>
      var week := WeekDays(d);
      if week[0].month != week[6].month then MonthRange(week[0].month, week[6].month, week[0].year)
      else MonthAndYear(d.month, d.year)
  }

  /**
   * The week label names two months exactly when the visible week runs
   * past the end of its Sunday's month; the two months are then
   * consecutive and the year is the Sunday's (the earlier year when the
   * week crosses a new year).  Otherwise all seven days lie in the
   * current date's month and year, which the label names.
   */
  lemma WeekHeader(d: Date)
    requires ValidDate(d)
    ensures var sunday := WeekDays(d)[0];
            var h := CalendarHeader(d, WeekView);
            (h.MonthRange? <==> sunday.day + 6 > DaysInMonth(sunday.year, sunday.month))
            && (h.MonthRange? ==>
                  h.first == sunday.month && h.second == (sunday.month + 1) % 12 && h.year == sunday.year)
            && (!h.MonthRange? ==>
                  h == MonthAndYear(d.month, d.year)
                  && forall i :: 0 <= i < 7 ==> WeekDays(d)[i].month == d.month && WeekDays(d)[i].year == d.year)
  {
    var week := WeekDays(d);
    var sunday := week[0];
    var w := Weekday(d);
    WeekFromSunday(d, 6);
    if sunday.day + 6 > DaysInMonth(sunday.year, sunday.month) {
      AddDaysPastMonthEnd(sunday, 6);
    } else {
      forall i | 0 <= i < 7
        ensures week[i].month == sunday.month && week[i].year == sunday.year
      {
        WeekFromSunday(d, i);
        AddDaysWithinMonth(sunday, i);
      }
      WeekFromSunday(d, w);
      AddDaysAdditive(d, -w, w);
    }
  }

  /** The `i`-th visible day is the Sunday moved by `i` days. */
  lemma WeekFromSunday(d: Date, i: int)
    requires ValidDate(d) && 0 <= i < 7
    ensures WeekDays(d)[0] == AddDays(d, -Weekday(d))
    ensures WeekDays(d)[i] == AddDays(WeekDays(d)[0], i)
  {
    var w := Weekday(d);
    WeekDayFromSunday(d, 0);
    assert 0 - w == -w;
    WeekDayFromSunday(d, i);
    AddDaysAdditive(d, -w, i);
    assert -w + i == i - w;
  }

  /** The week of 28 September to 4 October 2025 is labelled "September - October 2025". */
  lemma WeekHeaderExample()
    ensures CalendarHeader(Date(2025, 9, 1), WeekView) == MonthRange(8, 9, 2025)
  {
    var d, sunday := Date(2025, 9, 1), Date(2025, 8, 28);
    assert Weekday(d) == 3 by {
      WeekdayExample();
      WeekdayOfAddDays(d, 5);
      AddDaysWithinMonth(d, 5);
    }
    AddDaysPastMonthEnd(sunday, 3);
    AddDaysRoundTrip(sunday, 3);
    WeekFromSunday(d, 0);
    assert WeekDays(d)[0] == sunday;
    WeekHeader(d);
  }


  // ---------------------------------------------------------------------
  // Navigation state.
  // ---------------------------------------------------------------------

  /** The view the schedule screen opens in. */
  const ScheduleInitialView := MonthView

  /** The view the calendar screen opens in. */
  const CalendarInitialView := WeekView

  /**
   * The date and view state of a screen.  `today` is the day captured
   * once when the module is loaded (`TODAY`); both screens start on it.
   */
  class Navigator {
    const today: Date
    var currentDate: Date
    var view: View

    predicate Valid()
      reads this
    {
      ValidDate(today) && ValidDate(currentDate)
    }

    /**
     * A screen opened on `today` in `initialView`: `ScheduleInitialView`
     * for the schedule screen, `CalendarInitialView` for the calendar screen.
     */
    constructor (today: Date, initialView: View)
      requires ValidDate(today)
      ensures Valid()
      ensures this.today == today && currentDate == today && view == initialView
    {
      this.today := today;
      currentDate := today;
      view := initialView;
    }

    /** The previous (`-1`) and next (`1`) arrows. */
    method ChangeDate(direction: int)
      requires Valid()
      modifies this
      ensures Valid()
      ensures currentDate == Shift(old(currentDate), old(view), direction) && view == old(view)
    {
      var newDate := Shift(currentDate, view, direction);
      currentDate := newDate;
    }

    /** The "Today" button: back to the load-time day, whatever the clock says now. */
    method GoToToday()
      requires Valid()
      modifies this
      ensures Valid()
      ensures currentDate == today && view == old(view)
    {
      currentDate := today;
    }

    /** Choosing a view in the view menu keeps the current date. */
    method SetView(v: View)
      requires Valid()
      modifies this
      ensures Valid()
      ensures view == v && currentDate == old(currentDate)
    {
      view := v;
    }

    /** Tapping a day header or a month cell on the schedule screen. */
    method SelectDate(day: Date)
      requires Valid() && ValidDate(day)
      modifies this
      ensures Valid()
      ensures currentDate == day && view == old(view)
    {
      currentDate := day;
    }

    /** Tapping a month cell or an all-day cell on the calendar screen opens that day in the day view. */
    method OpenDay(day: Date)
      requires Valid() && ValidDate(day)
      modifies this
      ensures Valid()
      ensures currentDate == day && view == DayView
    {
      currentDate := day;
      view := DayView;
    }
  }
}
