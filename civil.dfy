/**
 * Proleptic Gregorian calendar arithmetic on calendar days, as the
 * JavaScript `Date` object performs it in local time (time zones and
 * daylight-saving shifts are not modelled).
 *
 * Months are 0-based, as `Date.getMonth()` returns them; days of the month
 * are 1-based, as `Date.getDate()` returns them.  `MakeDay` is the
 * normalisation that `new Date(y, m, d)`, `setDate` and `setMonth` apply
 * to out-of-range months and days.
 */
module CivilDate {

  /** A calendar day: year, 0-based month, 1-based day of the month. */
  datatype Date = Date(year: int, month: int, day: int)

  /** The Gregorian leap-year rule. */
  predicate IsLeapYear(y: int) {
    (y % 4 == 0 && y % 100 != 0) || y % 400 == 0
  }

  function DaysInMonth(y: int, m: int): (n: int)
    requires 0 <= m < 12
    ensures 28 <= n <= 31
    ensures n == 28 <==> m == 1 && !IsLeapYear(y)
    ensures n == 29 <==> m == 1 && IsLeapYear(y)
  {
    if m == 1 then (if IsLeapYear(y) then 29 else 28)
    else if m == 3 || m == 5 || m == 8 || m == 10 then 30
    else 31
  }

  function DaysInYear(y: int): int {
    if IsLeapYear(y) then 366 else 365
  }

  /** The days a `Date` object can be on: a real month and a day inside it. */
  predicate ValidDate(d: Date) {
    0 <= d.month < 12 && 1 <= d.day <= DaysInMonth(d.year, d.month)
  }

  /** The day after `d`, rolling over the end of a month and of a year. */
  function NextDay(d: Date): (r: Date)
    requires ValidDate(d)
    ensures ValidDate(r)
  {
    if d.day < DaysInMonth(d.year, d.month) then Date(d.year, d.month, d.day + 1)
    else if d.month < 11 then Date(d.year, d.month + 1, 1)
    else Date(d.year + 1, 0, 1)
  }

  /** The day before `d`, rolling back over the start of a month and of a year. */
  function PrevDay(d: Date): (r: Date)
    requires ValidDate(d)
    ensures ValidDate(r)
  {
    if d.day > 1 then Date(d.year, d.month, d.day - 1)
    else if d.month > 0 then Date(d.year, d.month - 1, DaysInMonth(d.year, d.month - 1))
    else Date(d.year - 1, 11, 31)
  }

  lemma PrevOfNext(d: Date)
    requires ValidDate(d)
    ensures PrevDay(NextDay(d)) == d
  {
  }

  lemma NextOfPrev(d: Date)
    requires ValidDate(d)
    ensures NextDay(PrevDay(d)) == d
  {
  }

  /** `d` moved by `k` days (forwards when `k > 0`, backwards when `k < 0`). */
  function AddDays(d: Date, k: int): (r: Date)
    requires ValidDate(d)
    ensures ValidDate(r)
    decreases if k >= 0 then k else -k
  {
    if k == 0 then d
    else if k > 0 then AddDays(NextDay(d), k - 1)
    else AddDays(PrevDay(d), k + 1)
  }

  lemma {:induction false} AddDaysAfterNext(d: Date, n: int)
    requires ValidDate(d)
    ensures AddDays(NextDay(d), n) == AddDays(d, n + 1)
  {
    if n < 0 {
      PrevOfNext(d);
    }
  }

  lemma {:induction false} AddDaysAfterPrev(d: Date, n: int)
    requires ValidDate(d)
    ensures AddDays(PrevDay(d), n) == AddDays(d, n - 1)
  {
    if n > 0 {
      NextOfPrev(d);
    }
  }

  /** Moving by `a` days and then by `b` days is moving by `a + b` days. */
  lemma {:induction false} AddDaysAdditive(d: Date, a: int, b: int)
    requires ValidDate(d)
    ensures AddDays(AddDays(d, a), b) == AddDays(d, a + b)
    decreases if a >= 0 then a else -a
  {
    if a > 0 {
      AddDaysAdditive(NextDay(d), a - 1, b);
      AddDaysAfterNext(d, a - 1 + b);
    } else if a < 0 {
      AddDaysAdditive(PrevDay(d), a + 1, b);
      AddDaysAfterPrev(d, a + 1 + b);
    }
  }

  /** Moving forwards by `k` days and back by `k` days returns to the same day. */
  lemma AddDaysRoundTrip(d: Date, k: int)
    requires ValidDate(d)
    ensures AddDays(AddDays(d, k), -k) == d
  {
    AddDaysAdditive(d, k, -k);
  }

  /** Moving forwards inside one month only changes the day of the month. */
  lemma {:induction false} AddDaysWithinMonth(d: Date, k: int)
    requires ValidDate(d) && 0 <= k && d.day + k <= DaysInMonth(d.year, d.month)
    ensures AddDays(d, k) == Date(d.year, d.month, d.day + k)
    decreases k
  {
    if k > 0 {
      AddDaysWithinMonth(NextDay(d), k - 1);
    }
  }

  /** Moving forwards past the end of a month, by at most four weeks more, lands in the next month. */
  lemma AddDaysPastMonthEnd(d: Date, k: int)
    requires ValidDate(d) && d.day + k > DaysInMonth(d.year, d.month)
    requires d.day + k <= DaysInMonth(d.year, d.month) + 28
    ensures var dim := DaysInMonth(d.year, d.month);
            AddDays(d, k) == if d.month < 11 then Date(d.year, d.month + 1, d.day + k - dim)
                             else Date(d.year + 1, 0, d.day + k - dim)
  {
    var dim := DaysInMonth(d.year, d.month);
    var r := dim - d.day;
    var last := Date(d.year, d.month, dim);
    AddDaysWithinMonth(d, r);
    AddDaysAdditive(d, r, k - r);
    AddDaysAfterNext(last, k - r - 1);
    AddDaysWithinMonth(NextDay(last), k - r - 1);
  }

  // ---------------------------------------------------------------------
  // Day numbers: days since 1970-01-01 (the JavaScript epoch day).
  // ---------------------------------------------------------------------

  /** Number of leap years `x` with `x < y`, counted from an arbitrary origin. */
  function LeapsBefore(y: int): int {
    (y - 1) / 4 - (y - 1) / 100 + (y - 1) / 400
  }

  function DaysBeforeYear(y: int): int {
    365 * (y - 1970) + LeapsBefore(y) - LeapsBefore(1970)
  }

  function DaysBeforeMonth(y: int, m: int): int
    requires 0 <= m < 12
  {
    var common :=
      if m == 0 then 0 else if m == 1 then 31 else if m == 2 then 59
      else if m == 3 then 90 else if m == 4 then 120 else if m == 5 then 151
      else if m == 6 then 181 else if m == 7 then 212 else if m == 8 then 243
      else if m == 9 then 273 else if m == 10 then 304 else 334;
    if m >= 2 && IsLeapYear(y) then common + 1 else common
  }

  function DayNumber(d: Date): int
    requires ValidDate(d)
  {
    DaysBeforeYear(d.year) + DaysBeforeMonth(d.year, d.month) + d.day - 1
  }

  lemma LeapsStep(y: int)
    ensures LeapsBefore(y + 1) == LeapsBefore(y) + (if IsLeapYear(y) then 1 else 0)
  {
    QuotientStep4(y);
    QuotientStep100(y);
    QuotientStep400(y);
  }

  /** `y / n` grows by one from `y - 1` to `y` exactly when `n` divides `y`. */
  lemma QuotientStep4(y: int)
    ensures y / 4 - (y - 1) / 4 == (if y % 4 == 0 then 1 else 0)
  {
  }

  lemma QuotientStep100(y: int)
    ensures y / 100 - (y - 1) / 100 == (if y % 100 == 0 then 1 else 0)
  {
  }

  lemma QuotientStep400(y: int)
    ensures y / 400 - (y - 1) / 400 == (if y % 400 == 0 then 1 else 0)
  {
  }

  lemma YearStep(y: int)
    ensures DaysBeforeYear(y + 1) == DaysBeforeYear(y) + DaysInYear(y)
  {
    LeapsStep(y);
  }

  /** Each day adds exactly one to the day number, also across month and year ends. */
  lemma DayNumberOfNext(d: Date)
    requires ValidDate(d)
    ensures DayNumber(NextDay(d)) == DayNumber(d) + 1
  {
    if d.day == DaysInMonth(d.year, d.month) && d.month == 11 {
      YearStep(d.year);
    }
  }

  lemma {:induction false} DayNumberOfAddDays(d: Date, k: int)
    requires ValidDate(d)
    ensures DayNumber(AddDays(d, k)) == DayNumber(d) + k
    decreases if k >= 0 then k else -k
  {
    if k > 0 {
      DayNumberOfNext(d);
      DayNumberOfAddDays(NextDay(d), k - 1);
    } else if k < 0 {
      NextOfPrev(d);
      DayNumberOfNext(PrevDay(d));
      DayNumberOfAddDays(PrevDay(d), k + 1);
    }
  }

  lemma {:induction false} DaysBeforeYearMonotonic(a: int, b: int)
    requires a <= b
    ensures DaysBeforeYear(a) + 365 * (b - a) <= DaysBeforeYear(b)
    decreases b - a
  {
    if a < b {
      DaysBeforeYearMonotonic(a, b - 1);
      YearStep(b - 1);
    }
  }

  lemma DayNumberWithinYear(d: Date)
    requires ValidDate(d)
    ensures DaysBeforeYear(d.year) <= DayNumber(d) < DaysBeforeYear(d.year + 1)
  {
    YearStep(d.year);
  }

  /** Distinct calendar days have distinct day numbers. */
  lemma DayNumberInjective(a: Date, b: Date)
    requires ValidDate(a) && ValidDate(b)
    ensures DayNumber(a) == DayNumber(b) <==> a == b
  {
    if DayNumber(a) == DayNumber(b) {
      DayNumberWithinYear(a);
      DayNumberWithinYear(b);
      if a.year < b.year {
        DaysBeforeYearMonotonic(a.year + 1, b.year);
      } else if b.year < a.year {
        DaysBeforeYearMonotonic(b.year + 1, a.year);
      }
      assert a.year == b.year;
      SameYearOffsets(a, b);
    }
  }

  lemma SameYearOffsets(a: Date, b: Date)
    requires ValidDate(a) && ValidDate(b) && a.year == b.year
    requires DaysBeforeMonth(a.year, a.month) + a.day == DaysBeforeMonth(b.year, b.month) + b.day
    ensures a == b
  {
    if a.month < b.month {
      DaysBeforeMonthMonotonic(a.year, a.month, b.month);
    } else if b.month < a.month {
      DaysBeforeMonthMonotonic(a.year, b.month, a.month);
    }
  }

  /** A later month starts after the whole of an earlier one. */
  lemma {:induction false} DaysBeforeMonthMonotonic(y: int, m1: int, m2: int)
    requires 0 <= m1 < m2 < 12
    ensures DaysBeforeMonth(y, m1) + DaysInMonth(y, m1) <= DaysBeforeMonth(y, m2)
    decreases m2 - m1
  {
    if m1 + 1 < m2 {
      DaysBeforeMonthMonotonic(y, m1 + 1, m2);
    }
  }

  const Epoch := Date(1970, 0, 1)

  /** The calendar day with the given day number. */
  function FromDayNumber(n: int): (r: Date)
    ensures ValidDate(r)
  {
    AddDays(Epoch, n)
  }

  /** Day numbers and calendar days convert into each other without loss. */
  lemma DayNumberRoundTrip(d: Date, n: int)
    requires ValidDate(d)
    ensures DayNumber(FromDayNumber(n)) == n
    ensures FromDayNumber(DayNumber(d)) == d
  {
    DayNumberOfAddDays(Epoch, n);
    DayNumberOfAddDays(Epoch, DayNumber(d));
    DayNumberInjective(FromDayNumber(DayNumber(d)), d);
  }

  /** `Date.getDay()`: 0 is Sunday, 6 is Saturday; 1970-01-01 was a Thursday. */
  function Weekday(d: Date): (w: int)
    requires ValidDate(d)
    ensures 0 <= w < 7
  {
    (DayNumber(d) + 4) % 7
  }

  /** 6 October 2025 (the first sample event's day) is a Monday. */
  lemma WeekdayExample()
    ensures Weekday(Date(2025, 9, 6)) == 1
  {
  }

  lemma WeekdayOfAddDays(d: Date, k: int)
    requires ValidDate(d)
    ensures Weekday(AddDays(d, k)) == (Weekday(d) + k) % 7
  {
    DayNumberOfAddDays(d, k);
    ModSevenShift(DayNumber(d) + 4, k);
  }

  lemma ModSevenShift(a: int, k: int)
    ensures (a + k) % 7 == (a % 7 + k) % 7
  {
    var q := a / 7;
    assert a + k == 7 * q + (a % 7 + k);
  }

  // ---------------------------------------------------------------------
  // JavaScript's normalisation of out-of-range months and days.
  // ---------------------------------------------------------------------

  /**
   * The day that year `y`, month index `m` and day `dom` denote once
   * normalised: the month index is reduced into the year (floor division
   * by 12) and a day outside the month rolls over into the neighbouring
   * months.  `setDate` and `setMonth` normalise this way.
   */
  function MakeDay(y: int, m: int, dom: int): (r: Date)
    ensures ValidDate(r)
  {
    AddDays(Date(y + m / 12, m % 12, 1), dom - 1)
  }

  /** The year `new Date(y, m, dom)` takes: a year from 0 to 99 means 1900 to 1999. */
  function ConstructorYear(y: int): int {
    if 0 <= y <= 99 then 1900 + y else y
  }

  /**
   * `new Date(y, m, dom)`: `MakeDay` on the constructor's year.  Unlike
   * `setDate` and `setMonth`, the constructor maps two-digit years into
   * the twentieth century.
   */
  function NewDate(y: int, m: int, dom: int): (r: Date)
    ensures ValidDate(r)
  {
    MakeDay(ConstructorYear(y), m, dom)
  }

  /** Outside the years 0 to 99 the constructor normalises exactly as `MakeDay` does. */
  lemma NewDateIsMakeDay(y: int, m: int, dom: int)
    requires y < 0 || 99 < y
    ensures NewDate(y, m, dom) == MakeDay(y, m, dom)
  {
  }

  /** An in-range month and day denote that day of the constructor's year. */
  lemma NewDateInRange(y: int, m: int, dom: int)
    requires 0 <= m < 12 && 1 <= dom <= DaysInMonth(ConstructorYear(y), m)
    ensures NewDate(y, m, dom) == Date(ConstructorYear(y), m, dom)
  {
    MakeDayInRange(ConstructorYear(y), m, dom);
  }

  /** `new Date(y, m + 1, 0)` is the last day of month `m` of the constructor's year. */
  lemma NewDateLastDay(y: int, m: int)
    requires 0 <= m < 12
    ensures NewDate(y, m + 1, 0) == Date(ConstructorYear(y), m, DaysInMonth(ConstructorYear(y), m))
  {
    LastDayOfMonth(ConstructorYear(y), m);
  }

  /**
   * Two-digit years: `new Date(0, 1, 1)` is 1 February 1900, a common
   * year, although year 0 itself is a leap year.
   */
  lemma NewDateShortYearExample()
    ensures NewDate(0, 1, 1) == Date(1900, 1, 1)
    ensures NewDate(0, 2, 0) == Date(1900, 1, 28)
    ensures DaysInMonth(0, 1) == 29
  {
    NewDateInRange(0, 1, 1);
    NewDateLastDay(0, 1);
  }

  /** `d.setDate(n)`: same year and month, day of the month `n`, normalised. */
  function SetDate(d: Date, n: int): (r: Date)
    ensures ValidDate(r)
  {
    MakeDay(d.year, d.month, n)
  }

  /** `d.setMonth(n)`: same year and day of the month, month `n`, normalised. */
  function SetMonth(d: Date, n: int): (r: Date)
    ensures ValidDate(r)
  {
    MakeDay(d.year, n, d.day)
  }

  /** An in-range month and day denote themselves. */
  lemma MakeDayInRange(y: int, m: int, dom: int)
    requires 0 <= m < 12 && 1 <= dom <= DaysInMonth(y, m)
    ensures MakeDay(y, m, dom) == Date(y, m, dom)
  {
    AddDaysWithinMonth(Date(y, m, 1), dom - 1);
  }

  /** `d.setDate(d.getDate() + k)` moves `d` by exactly `k` days. */
  lemma SetDateShifts(d: Date, k: int)
    requires ValidDate(d)
    ensures SetDate(d, d.day + k) == AddDays(d, k)
  {
    var first := Date(d.year, d.month, 1);
    assert d.year + d.month / 12 == d.year && d.month % 12 == d.month;
    assert SetDate(d, d.day + k) == AddDays(first, (d.day - 1) + k);
    AddDaysWithinMonth(first, d.day - 1);
    AddDaysAdditive(first, d.day - 1, k);
  }

  /** Day 0 of month `m + 1` is the last day of month `m`. */
  lemma LastDayOfMonth(y: int, m: int)
    requires 0 <= m < 12
    ensures MakeDay(y, m + 1, 0) == Date(y, m, DaysInMonth(y, m))
  {
    var next := Date(y + (m + 1) / 12, (m + 1) % 12, 1);
    assert AddDays(next, -1) == AddDays(PrevDay(next), 0) == PrevDay(next);
  }

  /**
   * `d.setMonth(n)` keeps the day of the month when the target month has
   * that many days; otherwise the excess days spill into the month after
   * the target month (no clamping to the last day).
   */
  lemma SetMonthRollover(d: Date, n: int)
    requires ValidDate(d)
    ensures var ty, tm := d.year + n / 12, n % 12;
            var dim := DaysInMonth(ty, tm);
            SetMonth(d, n) ==
              if d.day <= dim then Date(ty, tm, d.day)
              else MakeDay(ty, tm + 1, d.day - dim)
  {
    var ty, tm := d.year + n / 12, n % 12;
    assert SetMonth(d, n) == AddDays(Date(ty, tm, 1), d.day - 1);
    if d.day <= DaysInMonth(ty, tm) {
      AddDaysWithinMonth(Date(ty, tm, 1), d.day - 1);
    } else {
      PastMonthEnd(ty, tm, d.day);
    }
  }

  /** Day `x` of a month that has fewer than `x` days is day `x - dim` of the month after it. */
  lemma PastMonthEnd(y: int, m: int, x: int)
    requires 0 <= m < 12 && x > DaysInMonth(y, m)
    ensures AddDays(Date(y, m, 1), x - 1) == MakeDay(y, m + 1, x - DaysInMonth(y, m))
  {
    var dim := DaysInMonth(y, m);
    var first, last := Date(y, m, 1), Date(y, m, dim);
    var next := Date(y + (m + 1) / 12, (m + 1) % 12, 1);
    AddDaysWithinMonth(first, dim - 1);
    AddDaysAdditive(first, dim - 1, x - dim);
    assert NextDay(last) == next;
    AddDaysAfterNext(last, x - dim - 1);
    assert MakeDay(y, m + 1, x - dim) == AddDays(next, x - dim - 1);
  }

  /** 31 January 2025 moved forward one month lands on 3 March 2025. */
  lemma SetMonthOverflowExample()
    ensures SetMonth(Date(2025, 0, 31), 1) == Date(2025, 2, 3)
  {
    SetMonthRollover(Date(2025, 0, 31), 1);
    MakeDayInRange(2025, 2, 3);
  }
}
