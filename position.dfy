/**
 * Vertical placement on the hour track.  One pixel per minute
 * (`HOUR_HEIGHT = 60`); the track starts at `trackStartHour`, which is
 * midnight on the schedule screen and 5 AM on the calendar screen.
 * Pixel values are exact reals: the screens' floating-point rounding is
 * not modelled.
 */
module Position {
  import opened CivilDate
  import opened DayKey
  import opened Events

  /** `HOUR_HEIGHT`: pixels per hour. */
  const HourHeight: real := 60.0

  /** The track start hour of the schedule screen. */
  const ScheduleTrackStart: int := 0

  /** The track start hour of the calendar screen. */
  const CalendarTrackStart: int := 5

  /** What the "now" line is given when the shown day is not the live day. */
  const OffTrack: real := -60.0

  datatype EventPosition = EventPosition(top: real, height: real)

  /** Minutes since midnight of a stamp's clock time. */
  function ClockMinutes(s: Stamp): int {
    s.hour * 60 + s.minute
  }

  /** Minutes from the track's first hour to a stamp's clock time (negative before it). */
  function MinutesSinceTrackStart(s: Stamp, trackStartHour: int): int {
    (s.hour - trackStartHour) * 60 + s.minute
  }

  /** `(minutes / 60) * HOUR_HEIGHT`. */
  function ToPixels(minutes: int): real {
    (minutes as real / 60.0) * HourHeight
  }

  /**
   * `getEventPosition`: the top is the start's distance from the track
   * start and the height the difference of the two clock times.  Only the
   * clock time of `end` is used, and nothing keeps the height positive.
   */
  function GetEventPosition(e: Event, trackStartHour: int): (p: EventPosition)
    ensures p.top == (ClockMinutes(e.start) - 60 * trackStartHour) as real
    ensures p.height == (ClockMinutes(e.end) - ClockMinutes(e.start)) as real
    ensures p.height <= 0.0 <==> ClockMinutes(e.end) <= ClockMinutes(e.start)
    ensures p.top + p.height == (ClockMinutes(e.end) - 60 * trackStartHour) as real
  {
    var startMinutes := MinutesSinceTrackStart(e.start, trackStartHour);
    var endMinutes := MinutesSinceTrackStart(e.end, trackStartHour);
    EventPosition(ToPixels(startMinutes), ToPixels(endMinutes - startMinutes))
  }

  /** An event from 08:00 to 09:30 sits at 480 pixels and is 90 pixels tall on the schedule screen. */
  lemma PositionExample(e: Event)
    requires e.start.hour == 8 && e.start.minute == 0 && e.end.hour == 9 && e.end.minute == 30
    ensures GetEventPosition(e, ScheduleTrackStart) == EventPosition(480.0, 90.0)
  {
  }

  /** The track start moves an event up or down; its height does not change. */
  lemma TrackStartOnlyShifts(e: Event, a: int, b: int)
    ensures GetEventPosition(e, a).height == GetEventPosition(e, b).height
    ensures GetEventPosition(e, a).top - GetEventPosition(e, b).top == 60.0 * (b - a) as real
  {
  }

  /** On the calendar screen an event that starts before 5 AM gets a negative top. */
  lemma EarlyStartAboveTrack(e: Event)
    ensures GetEventPosition(e, CalendarTrackStart).top < 0.0 <==> e.start.hour < CalendarTrackStart
  {
  }

  /**
   * `getTimeTrackPosition`: the "now" line's offset when the shown day has
   * the live day's key, `OffTrack` otherwise.
   */
  function TimeTrackPosition(now: Stamp, currentDate: Date, trackStartHour: int): (r: real)
    requires ValidStamp(now) && ValidDate(currentDate)
    ensures now.date != currentDate ==> r == OffTrack
    ensures now.date == currentDate ==> r == (ClockMinutes(now) - 60 * trackStartHour) as real
  {
    FormatDateInjective(now.date, currentDate);
    if FormatDate(now.date) != FormatDate(currentDate) then OffTrack
    else ToPixels(MinutesSinceTrackStart(now, trackStartHour))
  }

  /** On the schedule screen the sentinel is unambiguous and the line stays within the day. */
  lemma ScheduleNowLine(now: Stamp, currentDate: Date)
    requires ValidStamp(now) && ValidDate(currentDate)
    ensures TimeTrackPosition(now, currentDate, ScheduleTrackStart) == OffTrack <==> now.date != currentDate
    ensures now.date == currentDate ==>
              0.0 <= TimeTrackPosition(now, currentDate, ScheduleTrackStart) <= 1439.0
  {
  }

  /**
   * On the calendar screen a live time of 04:00 gives the sentinel value
   * itself, and earlier times of the same day fall below it.
   */
  lemma CalendarNowLineMeetsSentinel(now: Stamp, currentDate: Date)
    requires ValidStamp(now) && ValidDate(currentDate) && now.date == currentDate
    ensures now.hour == 4 && now.minute == 0 ==>
              TimeTrackPosition(now, currentDate, CalendarTrackStart) == OffTrack
    ensures now.hour < 4 ==> TimeTrackPosition(now, currentDate, CalendarTrackStart) < OffTrack
  {
  }
}
