# Calendar layout engine, modelled in Dafny

This project models the layout engine behind the two calendar screens of a
React Native calendar app. The engine appears twice: once in
`app/scheduleUpdate.tsx` (the schedule screen) and again, with a 5 AM
track offset, in `app/CalendarApp.tsx` (the calendar screen). The model
covers five parts:

- **Calendar arithmetic** (`civil.dfy`, `daykey.dfy`, `grid.dfy`):
  - the proleptic Gregorian calendar with JavaScript's 0-based months;
  - `Date` normalisation the way `setDate` and `setMonth` do it (months
    overflow into the year, days into the neighbouring months, nothing
    clamps);
  - the three-argument constructor `new Date(y, m, d)`, which normalises
    the same way but first reads a year 0..99 as 1900..1999 (`NewDate`);
  - the `YYYY-MM-DD` day key, with a parser that reads it back;
  - the month grid, built by two push loops;
  - the Sunday-to-Saturday week.
- **Day bucketing** (`events.dfy`, `sequences.dfy`):
  - the `"YYYY-MM-DD HH:MM"` stamps of events and JavaScript's
    one-character `split`;
  - `getEventsForDate`, a stable filter on the date part of the start;
  - the all-day/timed split.
- **Position mapping** (`position.dfy`):
  - `getEventPosition` and `getTimeTrackPosition` in exact rational
    pixels, where one pixel is one minute;
  - a `trackStartHour` parameter: 0 for the schedule screen, 5 for the
    calendar screen.
- **Column packing** (`packing.dfy`):
  - `organizeEventsIntoColumns`, an imperative method with nested loops, a
    `placed` flag and `break`;
  - a specification fold, `Pack`, that the method is proved to compute.
    The partition, order, no-overlap and first-fit properties are proved
    about `Pack`;
  - the render loop's `left`/`width` percentages;
  - the calendar screen's unpacked full-width drawing.
- **Navigation** (`navigation.dfy`):
  - a `Navigator` class holding `today`, `currentDate` and `view`;
  - methods for the arrows, the "Today" button, the view menu and tapping
    a day;
  - the calendar screen's week label.

Dates have no time of day. The live clock is a parameter (`now`). `today`
is the day captured when the module loads.

Four behaviours of the code are worth stating outright:

- **Month arrows.** A month step uses `setMonth`, which keeps the day of
  the month and rolls the excess over into the next month. It does not
  clamp to the target month's last day: 31 January + 1 month is 3 March
  (`SetMonthOverflowExample`).
- **"Today" button.** It jumps to the `TODAY` constant captured when the
  module loads, not to the live clock.
- **Month grid length.** The grid has no trailing padding. Its length is
  the weekday of the 1st plus the number of days in the month, which need
  not be a multiple of 7.
- **Event height.** It is end minus start with no guard, so it is zero or
  negative when an event ends no later than it starts.

## Model

| member | source | states |
|---|---|---|
| CivilDate.DaysInMonth | app/scheduleUpdate.tsx:141-142 | the last day of a month is 28 to 31. It is 28 exactly in February of a common year and 29 exactly in February of a leap year (the Gregorian 4/100/400 rule) |
| CivilDate.NewDate | app/scheduleUpdate.tsx:140-141 | the constructor's result is a valid date |
| CivilDate.NewDateIsMakeDay | app/scheduleUpdate.tsx:140-141 | outside years 0..99 the constructor normalises exactly like `setDate`/`setMonth` |
| CivilDate.NewDateInRange | app/scheduleUpdate.tsx:152 | `new Date(y, m, i)` with an in-range month and day is day `i` of month `m` in year `y`, or in year `1900 + y` when `y` is 0..99 |
| CivilDate.NewDateLastDay | app/scheduleUpdate.tsx:141 | `new Date(y, m + 1, 0)` is the last day of month `m` of the constructor's year, also for December |
| CivilDate.NewDateShortYearExample | app/scheduleUpdate.tsx:140-141 | year 0 is read as 1900: February then has 28 days, although February of year 0 in the proleptic calendar has 29 |
| CivilDate.SetDateShifts | app/scheduleUpdate.tsx:160-165 | `setDate(getDate() + k)` moves a date by exactly `k` days, across month and year ends, in both directions |
| CivilDate.SetMonthRollover | app/scheduleUpdate.tsx:274 | `setMonth(n)` keeps the day of the month when the target month has that day. Otherwise the excess days spill into the following month. The target month is `n mod 12` in year `year + n div 12` |
| CivilDate.SetMonthOverflowExample | app/scheduleUpdate.tsx:274 | 31 January 2025 moved one month forward becomes 3 March 2025, not 28 February |
| CivilDate.Weekday | app/scheduleUpdate.tsx:143 | `getDay()` is in 0..6, with Sunday as 0 |
| CivilDate.WeekdayOfAddDays | app/scheduleUpdate.tsx:159-161 | moving `k` days advances the weekday by `k` modulo 7 |
| CivilDate.WeekdayExample | app/scheduleUpdate.tsx:143 | 6 October 2025 is a Monday |
| DayKey.Pad2RoundTrip | app/scheduleUpdate.tsx:132-133 | `String(n).padStart(2, "0")` for `n < 100` is two digits that read back as `n` |
| DayKey.FormatDateRoundTrip | app/scheduleUpdate.tsx:130-135 | every `YYYY-MM-DD` key reads back as the day it was built from |
| DayKey.FormatDateInjective | app/CalendarApp.tsx:83-87 | two days have equal keys exactly when they are the same day |
| DayKey.FormatDateAlphabet | app/scheduleUpdate.tsx:134 | a key holds only digits and `-`, so it contains no space |
| DayKey.FormatDateExample | app/scheduleUpdate.tsx:130-135 | the key of 6 October 2025 is `"2025-10-06"` (the month is 1-based and zero-padded) |
| Seqs.Filter | app/scheduleUpdate.tsx:175 | `filter` keeps only elements that satisfy the test, never more elements than the input, each at most as often as in the input |
| Events.StampRoundTrip | app/scheduleUpdate.tsx:179-185 | splitting a stamp's text on `" "` and then on `":"` recovers its day, hour and minute |
| Events.DatePartOfStamp | app/scheduleUpdate.tsx:175 | `start.split(" ")[0]` is the key of the event's start day |
| Events.StartsOnIffSameDay | app/scheduleUpdate.tsx:175 | the key comparison holds exactly when the event starts on that day |
| Events.EventsForDateMembers | app/CalendarApp.tsx:89-92 | an event is in a day's list exactly when it is in the list and starts on that day |
| Events.EventsForDateConcat | app/scheduleUpdate.tsx:170-176 | the lookup distributes over concatenation, so it keeps input order |
| Events.EventsForDateSingle | app/scheduleUpdate.tsx:170-176 | a one-event list keeps its event exactly when the event starts on that day |
| Events.AllDayAndTimedPartition | app/scheduleUpdate.tsx:610-612 | `isEvent` and `!isEvent` split a day's events into all-day and timed ones. Together they are exactly the day's events |
| Events.AllDayAndTimedMembers | app/scheduleUpdate.tsx:611-612 | an event is among the timed events exactly when it is listed and not `isEvent`, and among the all-day events exactly when it is listed and `isEvent` |
| Position.GetEventPosition | app/scheduleUpdate.tsx:178-193 | top is the start's minutes past the track start. Height is end clock minus start clock. The height is `<= 0` exactly when the end clock is not after the start clock. The bottom edge is the end's minutes past the track start |
| Position.PositionExample | app/scheduleUpdate.tsx:187-192 | 08:00 to 09:30 gives top 480 and height 90 |
| Position.TrackStartOnlyShifts | app/CalendarApp.tsx:94-108 | the 5 AM offset moves the top by 60 pixels per hour and leaves the height unchanged |
| Position.EarlyStartAboveTrack | app/CalendarApp.tsx:97 | with the 5 AM offset, the top is negative exactly for starts before 05:00 |
| Position.TimeTrackPosition | app/scheduleUpdate.tsx:305-315 | a different day gives the -60 sentinel. The same day gives the clock's minutes past the track start |
| Position.ScheduleNowLine | app/scheduleUpdate.tsx:305-315 | on the schedule screen, the sentinel appears exactly when the days differ. Otherwise the position lies in 0..1439 |
| Position.CalendarNowLineMeetsSentinel | app/CalendarApp.tsx:218-224 | with the 5 AM offset, 04:00 on the current day gives exactly the -60 sentinel and earlier times fall below it |
| Grid.LeadingBlanks | app/scheduleUpdate.tsx:140-143 | the number of leading blanks is the weekday of `new Date(year, month, 1)`, in 0..6 |
| Grid.GridColumnIsWeekday | app/CalendarApp.tsx:57-69 | a grid cell that holds a day sits in the column (index mod 7) of that day's weekday |
| Grid.GetDaysInMonth | app/scheduleUpdate.tsx:137-156 | the grid has `w` nulls, where `w` is the weekday of the 1st, then days 1..n of the month in order, in the constructor's year (1900 + y for years 0..99). Its length is `w + n` with no trailing padding. Every day sits in its weekday's column |
| Grid.MonthGridShortYearExample | app/CalendarApp.tsx:60-69 | for February of year 0 the grid is that of February 1900: 4 leading blanks and 28 days |
| Grid.WeekDays | app/scheduleUpdate.tsx:158-168 | the week is seven valid days |
| Grid.WeekDayAt | app/scheduleUpdate.tsx:158-168 | day `i` of the week is the date moved by `i - getDay()` days, and its weekday is `i` |
| Grid.WeekDaysAreTheWeek | app/CalendarApp.tsx:71-81 | the week is seven consecutive days, Sunday to Saturday, also across month and year ends. The input date sits at index `getDay()` |
| Packing.OverlapsMeansIntersecting | app/scheduleUpdate.tsx:205-211 | the overlap test holds exactly when each event starts before the other ends, so it is symmetric |
| Packing.FirstFit | app/scheduleUpdate.tsx:204-218 | the chosen column is the first one in which the event overlaps no occupant. Every earlier column has an occupant it overlaps. The result is the column count when no column fits |
| Packing.OrganizeEventsIntoColumns | app/scheduleUpdate.tsx:195-226 | the nested-loop packing computes `Pack(events)` |
| Packing.PackIsPermutation | app/scheduleUpdate.tsx:198-225 | the flattened columns hold every input event exactly as often as the input does |
| Packing.PackColumnsNonEmpty | app/scheduleUpdate.tsx:220-222 | no column is empty |
| Packing.ColumnsAreSelections | app/scheduleUpdate.tsx:200-223 | column `k` is exactly the events assigned to `k`, in input order. Each event is assigned exactly one existing column |
| Packing.AssignmentAt | app/scheduleUpdate.tsx:204-222 | event `i` goes to the first column that fits among the columns built from the events before it |
| Packing.PlaceKeepsColumnsDisjoint | app/scheduleUpdate.tsx:204-217 | placing one event keeps every column free of overlapping pairs |
| Packing.PackColumnsDisjoint | app/scheduleUpdate.tsx:204-222 | no two events in one column pass the overlap test, in either order |
| Packing.FirstFitBlockers | app/scheduleUpdate.tsx:204-222 | an event in column `k` overlaps, in every column `j < k`, some earlier event placed there. So a new column opens only when every existing column blocks the event |
| Packing.SameColumnNoOverlap | app/scheduleUpdate.tsx:204-217 | two events placed in the same column do not pass the overlap test, in either order |
| Packing.PackColumnCountBound | app/scheduleUpdate.tsx:219-222 | the packing opens at most one column per event |
| Packing.OverlappingEventsNeedColumns | app/scheduleUpdate.tsx:198-225 | any group of events that pairwise pass the overlap test needs at least as many columns as it has events, because each of them sits in a different column |
| Packing.PackExample | app/scheduleUpdate.tsx:195-226 | 09:00-10:00, 09:30-10:30 and 11:00-12:00 give columns `[[e1, e3], [e2]]` with assignment `[0, 1, 0]` |
| Packing.ColumnWidth | app/scheduleUpdate.tsx:562 | `100 / eventColumns.length` is positive, and the columns' widths add up to 100 |
| Packing.ColumnLeft | app/scheduleUpdate.tsx:570 | `colIndex * widthPercent` is at least 0, and `left + width <= 100` |
| Packing.SlotsDisjoint | app/scheduleUpdate.tsx:560-574 | different columns get horizontal slots that do not intersect |
| Packing.PackedEventsDoNotCollide | app/scheduleUpdate.tsx:560-574 | two different packed events that pass the overlap test lie in different columns, so their horizontal slots do not intersect |
| Packing.Box | app/scheduleUpdate.tsx:560-574 | the box of an event in column `colIndex` lies inside 0..100 percent |
| Packing.LayoutColumns | app/scheduleUpdate.tsx:560-574 | the drawn boxes follow the flattened columns one for one |
| Packing.EventDrawnAt | app/scheduleUpdate.tsx:560-574 | event `j` of column `k` is drawn at position `offset(k) + j` with column `k`, its own top and height from `getEventPosition`, width `100 / n` and left `k * width` |
| Packing.BoxDrawnAt | app/scheduleUpdate.tsx:560-574 | every drawn box is the box of one event `j` of one column `k`, at position `offset(k) + j` |
| Packing.Layout | app/scheduleUpdate.tsx:560-574 | the render loop draws one box per event of the flattened columns, in that order |
| Packing.LayoutDrawsEveryEvent | app/scheduleUpdate.tsx:560-574 | every event of every column is drawn, in its own column's box |
| Packing.LayoutDoesNotCollide | app/scheduleUpdate.tsx:560-574 | on the schedule screen, two different drawn boxes that share a vertical stretch have horizontal slots that do not intersect |
| Packing.DayColumnsHoldTheDaysTimedEvents | app/scheduleUpdate.tsx:547-552 | a day column's packed events are exactly that day's timed events, each as often as in the list |
| Packing.UnpackedLayout | app/CalendarApp.tsx:433-445 | the calendar screen draws one box per timed event, in list order |
| Packing.UnpackedEventsCollide | app/CalendarApp.tsx:289-310 | without packing, two events that pass the overlap test are drawn over each other. Their boxes share a vertical and a horizontal stretch |
| Navigation.Shift | app/scheduleUpdate.tsx:265-280 | a step in any view lands on a valid date |
| Navigation.ShiftDayAndWeek | app/scheduleUpdate.tsx:269-272 | the day view moves by exactly `direction` days and the week view by exactly `7 * direction` days |
| Navigation.ShiftDayAndWeekDistance | app/scheduleUpdate.tsx:269-272 | measured in day numbers, the steps are `direction` and `7 * direction` days, and a week step keeps the weekday |
| Navigation.ShiftDayAndWeekUndo | app/scheduleUpdate.tsx:269-272 | in the day and week views, a step followed by the opposite step returns to the same date |
| Navigation.WeekShiftMovesTheWeek | app/scheduleUpdate.tsx:271-272 | a week step moves each of the seven visible days by seven days |
| Navigation.MonthShiftMoves | app/scheduleUpdate.tsx:273-274 | a month step moves `direction` months and keeps the day of the month when the target month is long enough. Otherwise it moves one month further, to day `day - days in target month` |
| Navigation.MonthShiftNotUndone | app/scheduleUpdate.tsx:273-274 | month steps do not round-trip: 31 January, +1 month, -1 month gives 3 February |
| Navigation.WeekHeader | app/CalendarApp.tsx:124-141 | the week label names two months exactly when the week runs past the end of its Sunday's month. The months are then consecutive and the year is the Sunday's. Otherwise all seven days are in the current month and year, which the label names |
| Navigation.WeekHeaderExample | app/CalendarApp.tsx:124-141 | the week of 1 October 2025 is labelled September to October 2025 |
| Navigation.Navigator.constructor | app/scheduleUpdate.tsx:229-230 | a screen starts on `today` in the view it is given. The schedule screen's is `ScheduleInitialView` (month), the calendar screen's `CalendarInitialView` (week, app/CalendarApp.tsx:45) |
| Navigation.Navigator.ChangeDate | app/CalendarApp.tsx:111-118 | the arrows replace the current date by `Shift(currentDate, view, direction)` and keep the view |
| Navigation.Navigator.GoToToday | app/CalendarApp.tsx:110 | the "Today" button sets the current date to the load-time `today` and keeps the view |
| Navigation.Navigator.SetView | app/scheduleUpdate.tsx:809-812 | choosing a view keeps the current date |
| Navigation.Navigator.SelectDate | app/scheduleUpdate.tsx:482 | tapping a day makes it the current date and keeps the view |
| Navigation.Navigator.OpenDay | app/CalendarApp.tsx:236-239 | tapping a day on the calendar screen makes it the current date and switches to the day view |

## Left out

- `app/CalendarScreen.tsx` is not part of this model. It delegates to `dayjs` and a calendar widget and has no layout logic of its own.
- Rendering is left out: JSX, style sheets, colours, the view-menu toggle (`showViewMenu`), the hour labels and the month cell width.
- Timers and listeners are left out: the one-second clock interval and the window-size listener. The live time is a parameter (`now`) instead.
- Locale labels are left out: `toLocaleString`, `toLocaleDateString` and `toDateString`. The calendar screen's header is modelled on month indices. The schedule screen's `getDisplayText` only formats month names, so it is left out.
- Floating point is left out. Positions and percentages are exact rationals, not IEEE doubles.
- Time zones, daylight saving time and the time of day of `currentDate` are left out. A date is a calendar day, and a stamp is a day plus hour and minute.
- Malformed event strings are left out. Events carry well-formed stamps (`Events.Event`), and `FormatStamp` writes their `"YYYY-MM-DD HH:MM"` text.
- The range limit of JavaScript dates (±10^8 days) is not modelled. Years are unbounded integers.
- Event titles, descriptions and colours are left out. They are only displayed.
- The guard that shows the "now" line only when the current date is today is left out. It is a rendering condition, and the position itself is modelled.
- Navigation.Shift: its own contract states only that the result is a valid date. What each view's step does is stated by `ShiftDayAndWeek`, `MonthShiftMoves` and the lemmas beside them.
- Packing.UnpackedLayout: its own contract states only the one-for-one order of boxes. Full width and the resulting overlap are stated by `UnpackedEventsCollide`.
