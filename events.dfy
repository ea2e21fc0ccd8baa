/**
 * Calendar events and the lookup of the events of one day.
 *
 * An event's `start` and `end` are written `"YYYY-MM-DD HH:MM"` in the
 * event lists.  The model keeps them as typed stamps; `FormatStamp` writes
 * them out as that text, and `Split` is JavaScript's `String.split` on
 * one character, so the day lookup compares `start.split(" ")[0]` with
 * the day key exactly as the screens do.
 */
module Events {
  import opened Wrappers
  import opened CivilDate
  import opened DayKey
  import opened Seqs

  /** A wall-clock time with minute precision. */
  datatype Stamp = Stamp(date: Date, hour: int, minute: int)

  predicate ValidStamp(s: Stamp) {
    ValidDate(s.date) && 0 <= s.hour < 24 && 0 <= s.minute < 60
  }

  /**
   * An event of the list.  `isEvent` marks an all-day (banner) event;
   * title, description and colour are only displayed and are left out.
   */
  datatype CalendarEvent = CalendarEvent(id: int, start: Stamp, end: Stamp, isEvent: bool)

  /** The events of the lists carry well-formed `"YYYY-MM-DD HH:MM"` stamps. */
  type Event = e: CalendarEvent | ValidStamp(e.start) && ValidStamp(e.end)
    witness CalendarEvent(0, Stamp(Date(1970, 0, 1), 0, 0), Stamp(Date(1970, 0, 1), 0, 0), false)

  /** The `"HH:MM"` text of a stamp's clock time. */
  function FormatClock(s: Stamp): string
    requires ValidStamp(s)
  {
    Pad2(s.hour) + ":" + Pad2(s.minute)
  }

  /** The `"YYYY-MM-DD HH:MM"` text of a stamp. */
  function FormatStamp(s: Stamp): string
    requires ValidStamp(s)
  {
    FormatDate(s.date) + " " + FormatClock(s)
  }

  /** `s.split(sep)[0]`: the text before the first `sep`, or all of `s`. */
  function BeforeFirst(s: string, sep: char): (r: string)
    ensures |r| <= |s| && r == s[..|r|]
    ensures sep !in r
    ensures |r| < |s| ==> s[|r|] == sep
  {
    if |s| == 0 || s[0] == sep then [] else [s[0]] + BeforeFirst(s[1..], sep)
  }

  /** `s.split(sep)` for a one-character separator. */
  function Split(s: string, sep: char): (parts: seq<string>)
    ensures |parts| >= 1
    decreases |s|
  {
    var head := BeforeFirst(s, sep);
    if |head| == |s| then [s] else [head] + Split(s[|head| + 1..], sep)
  }

  lemma {:induction false} BeforeFirstOf(a: string, b: string, sep: char)
    requires sep !in a
    ensures BeforeFirst(a, sep) == a
    ensures BeforeFirst(a + [sep] + b, sep) == a
  {
    if a != [] {
      assert (a + [sep] + b)[1..] == a[1..] + [sep] + b;
      BeforeFirstOf(a[1..], b, sep);
    }
  }

  /** Splitting at the first separator after a separator-free prefix. */
  lemma SplitAfter(a: string, b: string, sep: char)
    requires sep !in a
    ensures Split(a, sep) == [a]
    ensures Split(a + [sep] + b, sep) == [a] + Split(b, sep)
  {
    BeforeFirstOf(a, b, sep);
    var s := a + [sep] + b;
    assert s[|a| + 1..] == b;
  }

  /**
   * Reads a stamp's text back the way `getEventPosition` takes it apart:
   * split on `" "`, split the time on `":"`, read each part as a number.
   */
  function ParseStamp(t: string): Option<Stamp> {
    var parts := Split(t, ' ');
    if |parts| < 2 then None
    else
      var clock := Split(parts[1], ':');
      if |clock| < 2 then None
      else
        match (ParseDate(parts[0]), ParseDigits(clock[0]), ParseDigits(clock[1]))
        case (Some(d), Some(h), Some(m)) =>
          var s := Stamp(d, h as int, m as int);
          if ValidStamp(s) then Some(s) else None
        case _ => None
  }

  lemma NotInDigits(t: string, c: char)
    requires AllDigits(t) && !IsDigit(c)
    ensures c !in t
  {
    forall i | 0 <= i < |t|
      ensures t[i] != c
    {
      assert IsDigit(t[i]);
    }
  }

  /** The clock text is two padded numbers around a `":"`, with no space. */
  lemma ClockParts(s: Stamp)
    requires ValidStamp(s)
    ensures FormatClock(s) == Pad2(s.hour) + [':'] + Pad2(s.minute)
    ensures ':' !in Pad2(s.hour) && ':' !in Pad2(s.minute)
    ensures ' ' !in FormatClock(s)
  {
    var hh, mm := Pad2(s.hour), Pad2(s.minute);
    Pad2RoundTrip(s.hour);
    Pad2RoundTrip(s.minute);
    NotInDigits(hh, ':');
    NotInDigits(mm, ':');
    NotInDigits(hh, ' ');
    NotInDigits(mm, ' ');
  }

  /** Splitting the clock text on `":"` gives the two padded numbers. */
  lemma ClockSplit(s: Stamp)
    requires ValidStamp(s)
    ensures ' ' !in FormatClock(s)
    ensures Split(FormatClock(s), ':') == [Pad2(s.hour), Pad2(s.minute)]
  {
    ClockParts(s);
    SplitTwo(FormatClock(s), Pad2(s.hour), Pad2(s.minute), ':');
  }

  /** Splitting a stamp's text on `" "` gives its day key and its clock text. */
  lemma StampSplit(s: Stamp)
    requires ValidStamp(s)
    ensures Split(FormatStamp(s), ' ') == [FormatDate(s.date), FormatClock(s)]
  {
    FormatDateAlphabet(s.date);
    ClockSplit(s);
    SplitTwo(FormatStamp(s), FormatDate(s.date), FormatClock(s), ' ');
  }

  /** A text made of two separator-free parts around one separator splits into those parts. */
  lemma SplitTwo(t: string, a: string, b: string, sep: char)
    requires t == a + [sep] + b && sep !in a && sep !in b
    ensures Split(t, sep) == [a, b]
  {
    SplitAfter(a, b, sep);
    SplitAfter(b, [], sep);
  }

  /** The date part of a stamp's text is the key of its day. */
  lemma DatePartOfStamp(s: Stamp)
    requires ValidStamp(s)
    ensures Split(FormatStamp(s), ' ')[0] == FormatDate(s.date)
  {
    StampSplit(s);
  }

  /** Splitting a stamp's text on `" "` and `":"` recovers its day, hour and minute. */
  lemma StampRoundTrip(s: Stamp)
    requires ValidStamp(s)
    ensures ParseStamp(FormatStamp(s)) == Some(s)
  {
    StampSplit(s);
    ClockSplit(s);
    Pad2RoundTrip(s.hour);
    Pad2RoundTrip(s.minute);
    FormatDateRoundTrip(s.date);
    ParseStampOfParts(FormatStamp(s), FormatDate(s.date), FormatClock(s), Pad2(s.hour), Pad2(s.minute), s);
  }

  lemma ParseStampOfParts(t: string, key: string, clock: string, hh: string, mm: string, s: Stamp)
    requires ValidStamp(s)
    requires Split(t, ' ') == [key, clock] && Split(clock, ':') == [hh, mm]
    requires ParseDate(key) == Some(s.date)
    requires ParseDigits(hh) == Some(s.hour) && ParseDigits(mm) == Some(s.minute)
    ensures ParseStamp(t) == Some(s)
  {
  }

  // ---------------------------------------------------------------------
  // Day lookup.
  // ---------------------------------------------------------------------

  /** `event.start.split(" ")[0] === key`. */
  predicate StartsOn(e: Event, key: string) {
    Split(FormatStamp(e.start), ' ')[0] == key
  }

  /** `getEventsForDate`: the events whose start text begins with the day's key, in list order. */
  function EventsForDate(date: Date, events: seq<Event>): seq<Event>
    requires ValidDate(date)
  {
    Filter(events, e => StartsOn(e, FormatDate(date)))
  }

  /** The key comparison selects exactly the events that start on that day. */
  lemma StartsOnIffSameDay(e: Event, date: Date)
    requires ValidDate(date)
    ensures StartsOn(e, FormatDate(date)) <==> e.start.date == date
  {
    DatePartOfStamp(e.start);
    FormatDateInjective(e.start.date, date);
  }

  /** An event is in the day's list exactly when it is in the list and starts on that day. */
  lemma EventsForDateMembers(date: Date, events: seq<Event>, e: Event)
    requires ValidDate(date)
    ensures e in EventsForDate(date, events) <==> e in events && e.start.date == date
  {
    FilterMembers(events, x => StartsOn(x, FormatDate(date)), e);
    StartsOnIffSameDay(e, date);
  }

  /** The lookup is a stable filter: it distributes over concatenation of lists ... */
  lemma EventsForDateConcat(date: Date, a: seq<Event>, b: seq<Event>)
    requires ValidDate(date)
    ensures EventsForDate(date, a + b) == EventsForDate(date, a) + EventsForDate(date, b)
  {
    FilterConcat(a, b, e => StartsOn(e, FormatDate(date)));
  }

  /** ... and keeps a single event exactly when it starts on that day. */
  lemma EventsForDateSingle(date: Date, e: Event)
    requires ValidDate(date)
    ensures EventsForDate(date, [e]) == if e.start.date == date then [e] else []
  {
    StartsOnIffSameDay(e, date);
    assert [e][1..] == [];
  }

  /** An all-day event is drawn as a banner above the time track. */
  predicate IsAllDay(e: Event) {
    e.isEvent
  }

  /** A timed event is placed on the time track. */
  predicate IsTimed(e: Event) {
    !e.isEvent
  }

  /** The all-day events of a list (`events.filter(e => e.isEvent)`). */
  function AllDayEvents(events: seq<Event>): seq<Event> {
    Filter(events, IsAllDay)
  }

  /** The timed events of a list (`events.filter(e => !e.isEvent)`). */
  function TimedEvents(events: seq<Event>): seq<Event> {
    Filter(events, IsTimed)
  }

  /** Every event of a day is either drawn as a banner or placed on the time track, never both. */
  lemma AllDayAndTimedPartition(events: seq<Event>)
    ensures multiset(AllDayEvents(events)) + multiset(TimedEvents(events)) == multiset(events)
  {
    FilterComplement(events, IsAllDay, IsTimed);
  }

  /** The timed events are exactly the listed events without `isEvent`; the all-day events the others. */
  lemma AllDayAndTimedMembers(events: seq<Event>, e: Event)
    ensures e in TimedEvents(events) <==> e in events && !e.isEvent
    ensures e in AllDayEvents(events) <==> e in events && e.isEvent
  {
    FilterMembers(events, IsTimed, e);
    FilterMembers(events, IsAllDay, e);
  }
}
