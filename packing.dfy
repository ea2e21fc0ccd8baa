/**
 * Greedy first-fit column packing of one day's timed events
 * (`organizeEventsIntoColumns` on the schedule screen) and the horizontal
 * slots the render loop gives each column.
 *
 * `Pack` is the specification: events are placed one by one in list order,
 * each into the lowest-index column none of whose occupants it overlaps,
 * or into a new column at the right.  `Assignment` records the column each
 * event went to.  The imperative `OrganizeEventsIntoColumns` is proved to
 * compute `Pack`.
 */
module Packing {
  import opened CivilDate
  import opened Events
  import opened Position
  import opened Seqs

  /**
   * The overlap test, new event first:
   * `!(pos.top + pos.height <= existing.top || pos.top >= existing.top + existing.height)`.
   */
  predicate Overlaps(e: Event, existing: Event) {
    var pos := GetEventPosition(e, ScheduleTrackStart);
    var ex := GetEventPosition(existing, ScheduleTrackStart);
    !(pos.top + pos.height <= ex.top || pos.top >= ex.top + ex.height)
  }

  /**
   * The test compares clock intervals `[start, end)`: it holds exactly when
   * each event starts before the other ends, so it is symmetric.
   */
  lemma OverlapsMeansIntersecting(a: Event, b: Event)
    ensures Overlaps(a, b) <==>
              ClockMinutes(a.start) < ClockMinutes(b.end) && ClockMinutes(b.start) < ClockMinutes(a.end)
    ensures Overlaps(a, b) == Overlaps(b, a)
  {
  }

  /** `col.some(existing => overlap(event, existing))`. */
  predicate HasOverlap(col: seq<Event>, e: Event) {
    exists i :: 0 <= i < |col| && Overlaps(e, col[i])
  }

  /** The index of the first column that `e` does not overlap, or `|cols|` when there is none. */
  function FirstFit(cols: seq<seq<Event>>, e: Event): (k: nat)
    ensures k <= |cols|
    ensures forall j :: 0 <= j < k ==> HasOverlap(cols[j], e)
    ensures k < |cols| ==> !HasOverlap(cols[k], e)
  {
    if cols == [] then 0
    else if !HasOverlap(cols[0], e) then 0
    else 1 + FirstFit(cols[1..], e)
  }

  /** One step of the packing: `col.push(event)`, or `eventColumns.push([event])`. */
  function Place(cols: seq<seq<Event>>, e: Event): seq<seq<Event>> {
    var k := FirstFit(cols, e);
    if k < |cols| then cols[k := cols[k] + [e]] else cols + [[e]]
  }

  /** The columns after placing every event of `events`, in list order. */
  function Pack(events: seq<Event>): seq<seq<Event>>
    decreases |events|
  {
    if events == [] then []
    else Place(Pack(events[..|events| - 1]), events[|events| - 1])
  }

  /** The column index each event of `events` is placed in. */
  function Assignment(events: seq<Event>): seq<nat>
    decreases |events|
  {
    if events == [] then []
    else
      var prefix := events[..|events| - 1];
      Assignment(prefix) + [FirstFit(Pack(prefix), events[|events| - 1])]
  }

  /** The events whose column index in `a` is `k`, in list order. */
  function Select(events: seq<Event>, a: seq<nat>, k: nat): seq<Event>
    requires |a| == |events|
    decreases |events|
  {
    if events == [] then []
    else
      Select(events[..|events| - 1], a[..|a| - 1], k)
        + (if a[|a| - 1] == k then [events[|events| - 1]] else [])
  }

  // ---------------------------------------------------------------------
  // The imperative packing.
  // ---------------------------------------------------------------------

  /** The first column whose occupants all miss `e` is unique. */
  lemma FirstFitIs(cols: seq<seq<Event>>, e: Event, c: nat)
    requires c <= |cols|
    requires forall j :: 0 <= j < c ==> HasOverlap(cols[j], e)
    requires c < |cols| ==> !HasOverlap(cols[c], e)
    ensures FirstFit(cols, e) == c
  {
  }

  /**
   * `organizeEventsIntoColumns`: for each event, scan the columns in order
   * and push it into the first one it does not overlap (`placed`, `break`);
   * open a new column when none accepts it.
   */
  method OrganizeEventsIntoColumns(events: seq<Event>) returns (eventColumns: seq<seq<Event>>)
    ensures eventColumns == Pack(events)
  {
    eventColumns := [];
    var n := 0;
    while n < |events|
      invariant 0 <= n <= |events|
      invariant eventColumns == Pack(events[..n])
    {
      var event := events[n];
      var placed := false;
      ghost var before := eventColumns;
      var c := 0;
      while c < |eventColumns|
        invariant 0 <= c <= |eventColumns|
        invariant !placed && eventColumns == before
        invariant forall j :: 0 <= j < c ==> HasOverlap(before[j], event)
      {
        var hasOverlap := exists i :: 0 <= i < |eventColumns[c]| && Overlaps(event, eventColumns[c][i]);
        if !hasOverlap {
          FirstFitIs(before, event, c);
          eventColumns := eventColumns[c := eventColumns[c] + [event]];
          placed := true;
          break;
        }
        c := c + 1;
      }
      if !placed {
        FirstFitIs(before, event, |before|);
        eventColumns := eventColumns + [[event]];
      }
      assert events[..n + 1][..n] == events[..n];
      n := n + 1;
    }
    assert events[..n] == events;
  }

  // ---------------------------------------------------------------------
  // What the packing guarantees.
  // ---------------------------------------------------------------------

  /** The columns hold every event exactly as often as the list does: a partition of the list. */
  lemma {:induction false} PackIsPermutation(events: seq<Event>)
    ensures multiset(Flatten(Pack(events))) == multiset(events)
    decreases |events|
  {
    if events != [] {
      var prefix, e := events[..|events| - 1], events[|events| - 1];
      PackIsPermutation(prefix);
      var cols := Pack(prefix);
      var k := FirstFit(cols, e);
      if k < |cols| {
        FlattenPushInto(cols, k, e);
      } else {
        FlattenAppend(cols, [e]);
      }
      assert events == prefix + [e];
    }
  }

  /** No column is ever empty. */
  lemma {:induction false} PackColumnsNonEmpty(events: seq<Event>)
    ensures forall k :: 0 <= k < |Pack(events)| ==> |Pack(events)[k]| > 0
    decreases |events|
  {
    if events != [] {
      PackColumnsNonEmpty(events[..|events| - 1]);
    }
  }

  /** Within a column, no two events pass the overlap test (in either order). */
  ghost predicate ColumnsDisjoint(cols: seq<seq<Event>>) {
    forall k, i, j :: 0 <= k < |cols| && 0 <= i < j < |cols[k]| ==>
      !Overlaps(cols[k][j], cols[k][i]) && !Overlaps(cols[k][i], cols[k][j])
  }

  lemma PlaceKeepsColumnsDisjoint(cols: seq<seq<Event>>, e: Event)
    requires ColumnsDisjoint(cols)
    ensures ColumnsDisjoint(Place(cols, e))
  {
    var k := FirstFit(cols, e);
    if k < |cols| {
      forall i | 0 <= i < |cols[k]|
        ensures !Overlaps(e, cols[k][i]) && !Overlaps(cols[k][i], e)
      {
        OverlapsMeansIntersecting(e, cols[k][i]);
      }
    }
  }

  lemma {:induction false} PackColumnsDisjoint(events: seq<Event>)
    ensures ColumnsDisjoint(Pack(events))
    decreases |events|
  {
    if events != [] {
      PackColumnsDisjoint(events[..|events| - 1]);
      PlaceKeepsColumnsDisjoint(Pack(events[..|events| - 1]), events[|events| - 1]);
    }
  }

  lemma {:induction false} SelectEmpty(events: seq<Event>, a: seq<nat>, k: nat)
    requires |a| == |events|
    requires forall i :: 0 <= i < |a| ==> a[i] != k
    ensures Select(events, a, k) == []
    decreases |events|
  {
    if events != [] {
      SelectEmpty(events[..|events| - 1], a[..|a| - 1], k);
    }
  }

  /**
   * Column `k` is exactly the events assigned to `k`, in list order: each
   * event is in exactly one column and every column keeps the relative
   * order of the list.
   */
  lemma {:induction false} ColumnsAreSelections(events: seq<Event>)
    ensures |Assignment(events)| == |events|
    ensures forall i :: 0 <= i < |events| ==> Assignment(events)[i] < |Pack(events)|
    ensures forall k :: 0 <= k < |Pack(events)| ==>
              Pack(events)[k] == Select(events, Assignment(events), k)
    decreases |events|
  {
    if events != [] {
      var prefix, e := events[..|events| - 1], events[|events| - 1];
      ColumnsAreSelections(prefix);
      var cols, a := Pack(prefix), Assignment(prefix);
      var f := FirstFit(cols, e);
      var a' := Assignment(events);
      assert a' == a + [f];
      assert a'[..|a'| - 1] == a;
      forall k | 0 <= k < |Pack(events)|
        ensures Pack(events)[k] == Select(events, a', k)
      {
        if k == |cols| {
          SelectEmpty(prefix, a, k);
        }
      }
    }
  }

  /** The column of event `i` is the first fit among the columns built from the events before it. */
  lemma {:induction false} AssignmentAt(events: seq<Event>, i: nat)
    requires i < |events|
    ensures |Assignment(events)| == |events|
    ensures Assignment(events)[i] == FirstFit(Pack(events[..i]), events[i])
    decreases |events|
  {
    ColumnsAreSelections(events);
    if i < |events| - 1 {
      var prefix := events[..|events| - 1];
      AssignmentAt(prefix, i);
      assert prefix[..i] == events[..i];
    }
  }

  lemma {:induction false} SelectMember(events: seq<Event>, a: seq<nat>, k: nat, x: Event)
    requires |a| == |events|
    requires x in Select(events, a, k)
    ensures exists i :: 0 <= i < |events| && a[i] == k && events[i] == x
    decreases |events|
  {
    var n := |events| - 1;
    if x in Select(events[..n], a[..n], k) {
      SelectMember(events[..n], a[..n], k, x);
      var i :| 0 <= i < n && a[..n][i] == k && events[..n][i] == x;
      assert a[i] == k && events[i] == x;
    } else {
      assert a[n] == k && events[n] == x;
    }
  }

  lemma {:induction false} AssignmentPrefix(events: seq<Event>, m: nat)
    requires m <= |events|
    ensures |Assignment(events)| == |events|
    ensures Assignment(events[..m]) == Assignment(events)[..m]
    decreases |events|
  {
    ColumnsAreSelections(events);
    if m < |events| {
      var prefix := events[..|events| - 1];
      AssignmentPrefix(prefix, m);
      ColumnsAreSelections(prefix);
      assert prefix[..m] == events[..m];
    } else {
      assert events[..m] == events;
    }
  }

  /**
   * First fit: an event placed in column `k` overlaps, in every column
   * `j < k`, some event placed there before it.  In particular a new
   * column is opened only for an event that overlaps some occupant of
   * every existing column.
   */
  lemma FirstFitBlockers(events: seq<Event>, i: nat, j: nat)
    requires i < |events|
    requires |Assignment(events)| == |events| && j < Assignment(events)[i]
    ensures exists p :: 0 <= p < i && Assignment(events)[p] == j && Overlaps(events[i], events[p])
  {
    AssignmentAt(events, i);
    var prefix := events[..i];
    var cols := Pack(prefix);
    assert HasOverlap(cols[j], events[i]);
    var q :| 0 <= q < |cols[j]| && Overlaps(events[i], cols[j][q]);
    ColumnsAreSelections(prefix);
    SelectMember(prefix, Assignment(prefix), j, cols[j][q]);
    AssignmentPrefix(events, i);
    var p :| 0 <= p < i && Assignment(prefix)[p] == j && prefix[p] == cols[j][q];
    assert Assignment(events)[p] == j && events[p] == prefix[p];
  }

  /** An event is in the column it is assigned to. */
  lemma {:induction false} SelectContains(events: seq<Event>, a: seq<nat>, k: nat, p: nat)
    requires |a| == |events| && p < |events| && a[p] == k
    ensures events[p] in Select(events, a, k)
    decreases |events|
  {
    var n := |events| - 1;
    if p < n {
      SelectContains(events[..n], a[..n], k, p);
      assert events[..n][p] == events[p];
    }
  }

  /** Two events placed in the same column do not pass the overlap test, in either order. */
  lemma SameColumnNoOverlap(events: seq<Event>, p: nat, q: nat)
    requires p < q < |events|
    ensures |Assignment(events)| == |events|
    ensures Assignment(events)[p] == Assignment(events)[q] ==>
              !Overlaps(events[q], events[p]) && !Overlaps(events[p], events[q])
  {
    AssignmentAt(events, q);
    var prefix := events[..q];
    var cols, k := Pack(prefix), Assignment(events)[q];
    if Assignment(events)[p] == k {
      AssignmentPrefix(events, q);
      ColumnsAreSelections(prefix);
      assert Assignment(prefix)[p] == k && k < |cols|;
      SelectContains(prefix, Assignment(prefix), k, p);
      var x :| 0 <= x < |cols[k]| && cols[k][x] == prefix[p];
      assert !Overlaps(events[q], cols[k][x]);
      OverlapsMeansIntersecting(events[q], events[p]);
    }
  }

  /** The packing never opens more columns than there are events. */
  lemma {:induction false} PackColumnCountBound(events: seq<Event>)
    ensures |Pack(events)| <= |events|
    decreases |events|
  {
    if events != [] {
      PackColumnCountBound(events[..|events| - 1]);
    }
  }

  /** A map that is one-to-one on `s` and sends `s` into `b` needs `b` at least as large. */
  lemma {:induction false} InjectiveCount(s: set<nat>, a: seq<nat>, b: set<nat>)
    requires forall i :: i in s ==> i < |a| && a[i] in b
    requires forall i, j :: i in s && j in s && i != j ==> a[i] != a[j]
    ensures |s| <= |b|
    decreases s
  {
    if s != {} {
      var x :| x in s;
      InjectiveCount(s - {x}, a, b - {a[x]});
    }
  }

  /** The column indices `0` to `n - 1`. */
  function Indices(n: nat): (r: set<nat>)
    ensures |r| == n
    ensures forall k :: k in r <==> 0 <= k < n
  {
    if n == 0 then {}
    else
      assert n - 1 !in Indices(n - 1);
      Indices(n - 1) + {n - 1}
  }

  /**
   * Events that pairwise pass the overlap test all sit in different
   * columns, so the packing opens at least as many columns as any such
   * group has events.
   */
  lemma OverlappingEventsNeedColumns(events: seq<Event>, s: set<nat>)
    requires forall i :: i in s ==> i < |events|
    requires forall i, j :: i in s && j in s && i != j ==> Overlaps(events[i], events[j])
    ensures |s| <= |Pack(events)|
  {
    ColumnsAreSelections(events);
    var a := Assignment(events);
    forall i, j | i in s && j in s && i != j
      ensures a[i] != a[j]
    {
      if i < j {
        SameColumnNoOverlap(events, i, j);
      } else {
        SameColumnNoOverlap(events, j, i);
      }
    }
    InjectiveCount(s, a, Indices(|Pack(events)|));
  }

  // ---------------------------------------------------------------------
  // Horizontal slots (the render loop over `eventColumns`).
  // ---------------------------------------------------------------------

  /** `100 / eventColumns.length`: the width in percent of every column. */
  function ColumnWidth(columnCount: nat): (w: real)
    requires columnCount > 0
    ensures w > 0.0 && w * columnCount as real == 100.0
  {
    100.0 / columnCount as real
  }

  /** `colIndex * widthPercent`: the left edge in percent of column `colIndex`. */
  function ColumnLeft(colIndex: nat, columnCount: nat): (left: real)
    requires colIndex < columnCount
    ensures 0.0 <= left && left + ColumnWidth(columnCount) <= 100.0
  {
    var w := ColumnWidth(columnCount);
    ScaleMonotone(0.0, colIndex as real, w);
    ScaleMonotone(colIndex as real + 1.0, columnCount as real, w);
    colIndex as real * w
  }

  lemma ScaleMonotone(a: real, b: real, w: real)
    requires a <= b && w > 0.0
    ensures a * w <= b * w
    ensures a * w + w == (a + 1.0) * w
  {
    assert b * w - a * w == (b - a) * w;
  }

  /** Different columns get horizontal slots that do not intersect. */
  lemma SlotsDisjoint(c1: nat, c2: nat, n: nat)
    requires c1 < n && c2 < n && c1 != c2
    ensures ColumnLeft(c1, n) + ColumnWidth(n) <= ColumnLeft(c2, n)
         || ColumnLeft(c2, n) + ColumnWidth(n) <= ColumnLeft(c1, n)
  {
    if c1 < c2 {
      SlotBefore(c1, c2, n);
    } else {
      SlotBefore(c2, c1, n);
    }
  }

  lemma SlotBefore(lo: nat, hi: nat, n: nat)
    requires lo < hi < n
    ensures ColumnLeft(lo, n) + ColumnWidth(n) <= ColumnLeft(hi, n)
  {
    var w := ColumnWidth(n);
    var a, b := lo as real, hi as real;
    assert a + 1.0 <= b;
    ScaleMonotone(a, a, w);
    ScaleMonotone(a + 1.0, b, w);
    assert ColumnLeft(lo, n) + w == (a + 1.0) * w;
  }

  /**
   * No visual collision: two different events of the packed columns whose
   * vertical intervals pass the overlap test are in different columns, and
   * so get horizontal slots that do not intersect.
   */
  lemma PackedEventsDoNotCollide(events: seq<Event>, c1: nat, i1: nat, c2: nat, i2: nat)
    requires c1 < |Pack(events)| && i1 < |Pack(events)[c1]|
    requires c2 < |Pack(events)| && i2 < |Pack(events)[c2]|
    requires (c1, i1) != (c2, i2)
    requires Overlaps(Pack(events)[c1][i1], Pack(events)[c2][i2])
    ensures c1 != c2
    ensures var n := |Pack(events)|;
            ColumnLeft(c1, n) + ColumnWidth(n) <= ColumnLeft(c2, n)
            || ColumnLeft(c2, n) + ColumnWidth(n) <= ColumnLeft(c1, n)
  {
    PackColumnsDisjoint(events);
    OverlapsMeansIntersecting(Pack(events)[c1][i1], Pack(events)[c2][i2]);
    SlotsDisjoint(c1, c2, |Pack(events)|);
  }

  /** A drawn timed event: its column, the column count, and its box in pixels and percent. */
  datatype Placement = Placement(event: Event, column: nat, columnCount: nat,
                                 top: real, height: real, left: real, width: real)

  /** The box the render loop draws for event `j` of column `k`. */
  function Box(cols: seq<seq<Event>>, k: nat, j: nat): (b: Placement)
    requires k < |cols| && j < |cols[k]|
    ensures 0.0 <= b.left && b.left + b.width <= 100.0
  {
    var pos := GetEventPosition(cols[k][j], ScheduleTrackStart);
    Placement(cols[k][j], k, |cols|, pos.top, pos.height, ColumnLeft(k, |cols|), ColumnWidth(|cols|))
  }

  /** How many boxes the columns `c` to `k - 1` draw: where column `k`'s boxes start. */
  function ColumnOffset(cols: seq<seq<Event>>, c: nat, k: nat): nat
    requires c <= k <= |cols|
  {
    |Flatten(cols[c..k])|
  }

  lemma OffsetStep(cols: seq<seq<Event>>, c: nat, k: nat)
    requires c < k <= |cols|
    ensures ColumnOffset(cols, c, c) == 0
    ensures ColumnOffset(cols, c, k) == |cols[c]| + ColumnOffset(cols, c + 1, k)
  {
    assert cols[c..c] == [];
    assert cols[c..k][0] == cols[c] && cols[c..k][1..] == cols[c + 1..k];
  }

  /** The render loop: every event of column `c`, then the columns after it. */
  function LayoutColumns(cols: seq<seq<Event>>, c: nat): (r: seq<Placement>)
    requires c <= |cols|
    ensures |r| == |Flatten(cols[c..])|
    ensures forall i :: 0 <= i < |r| ==> r[i].event == Flatten(cols[c..])[i]
    decreases |cols| - c
  {
    if c == |cols| then []
    else
      assert cols[c..] == [cols[c]] + cols[c + 1..];
      var here := seq(|cols[c]|, j requires 0 <= j < |cols[c]| => Box(cols, c, j));
      here + LayoutColumns(cols, c + 1)
  }

  /** Event `j` of column `k` is drawn at position `ColumnOffset(cols, c, k) + j`. */
  lemma {:induction false} EventDrawnAt(cols: seq<seq<Event>>, c: nat, k: nat, j: nat)
    requires c <= k < |cols| && j < |cols[k]|
    ensures ColumnOffset(cols, c, k) + j < |LayoutColumns(cols, c)|
    ensures LayoutColumns(cols, c)[ColumnOffset(cols, c, k) + j] == Box(cols, k, j)
    decreases k - c
  {
    if c == k {
      assert cols[c..c] == [];
    } else {
      EventDrawnAt(cols, c + 1, k, j);
      OffsetStep(cols, c, k);
    }
  }

  /** The box at position `i` is event `j` of column `k`, where `i == ColumnOffset(cols, c, k) + j`. */
  lemma {:induction false} BoxDrawnAt(cols: seq<seq<Event>>, c: nat, i: nat) returns (k: nat, j: nat)
    requires c <= |cols| && i < |LayoutColumns(cols, c)|
    ensures c <= k < |cols| && j < |cols[k]| && i == ColumnOffset(cols, c, k) + j
    ensures LayoutColumns(cols, c)[i] == Box(cols, k, j)
    decreases |cols| - c
  {
    if i < |cols[c]| {
      k, j := c, i;
      assert cols[c..c] == [];
    } else {
      k, j := BoxDrawnAt(cols, c + 1, i - |cols[c]|);
      OffsetStep(cols, c, k);
    }
  }

  /** The boxes of all columns. */
  function Layout(cols: seq<seq<Event>>): (r: seq<Placement>)
    ensures |r| == |Flatten(cols)|
    ensures forall i :: 0 <= i < |r| ==> r[i].event == Flatten(cols)[i]
  {
    assert cols[0..] == cols;
    LayoutColumns(cols, 0)
  }

  /** `r` draws box `b` at position `i`. */
  predicate DrawnAt(r: seq<Placement>, i: int, b: Placement) {
    0 <= i < |r| && r[i] == b
  }

  /** Event `j` of column `k` is drawn at position `ColumnOffset(cols, 0, k) + j`, in its own box. */
  lemma LayoutDrawsEveryEvent(cols: seq<seq<Event>>)
    ensures forall k: nat, j: nat :: k < |cols| && j < |cols[k]| ==>
              DrawnAt(Layout(cols), ColumnOffset(cols, 0, k) + j, Box(cols, k, j))
  {
    forall k: nat, j: nat | k < |cols| && j < |cols[k]|
      ensures DrawnAt(Layout(cols), ColumnOffset(cols, 0, k) + j, Box(cols, k, j))
    {
      EventDrawnAt(cols, 0, k, j);
    }
  }

  /**
   * No visual collision on the schedule screen: two different boxes drawn
   * for the packed columns that share a vertical stretch get horizontal
   * slots that do not intersect.
   */
  lemma LayoutDoesNotCollide(events: seq<Event>, i1: nat, i2: nat)
    requires i1 < |Layout(Pack(events))| && i2 < |Layout(Pack(events))| && i1 != i2
    requires var p, q := Layout(Pack(events))[i1], Layout(Pack(events))[i2];
             p.top < q.top + q.height && q.top < p.top + p.height
    ensures var p, q := Layout(Pack(events))[i1], Layout(Pack(events))[i2];
            p.left + p.width <= q.left || q.left + q.width <= p.left
  {
    var cols := Pack(events);
    var k1, j1 := BoxDrawnAt(cols, 0, i1);
    var k2, j2 := BoxDrawnAt(cols, 0, i2);
    PackColumnsDisjoint(events);
    OverlapsMeansIntersecting(cols[k1][j1], cols[k2][j2]);
    assert Overlaps(cols[k1][j1], cols[k2][j2]);
    assert k1 != k2;
    SlotsDisjoint(k1, k2, |cols|);
  }

  /**
   * The calendar screen draws a day's timed events without packing, at
   * the 5 AM track offset and with no left or width of their own: every
   * event spans the whole day column.
   */
  function UnpackedLayout(events: seq<Event>): (r: seq<Placement>)
    ensures |r| == |events|
    ensures forall i :: 0 <= i < |r| ==> r[i].event == events[i]
  {
    seq(|events|, i requires 0 <= i < |events| =>
      var pos := GetEventPosition(events[i], CalendarTrackStart);
      Placement(events[i], 0, 1, pos.top, pos.height, 0.0, 100.0))
  }

  /**
   * Without packing, two events that pass the overlap test are drawn over
   * each other: their boxes share both a vertical and a horizontal stretch.
   */
  lemma UnpackedEventsCollide(events: seq<Event>, i: nat, j: nat)
    requires i < |events| && j < |events|
    requires Overlaps(events[i], events[j])
    ensures var p, q := UnpackedLayout(events)[i], UnpackedLayout(events)[j];
            p.top < q.top + q.height && q.top < p.top + p.height
            && p.left < q.left + q.width && q.left < p.left + p.width
  {
    OverlapsMeansIntersecting(events[i], events[j]);
  }

  /** One day column of the week view, or the day view: the day's timed events, packed. */
  function DayColumns(day: Date, events: seq<Event>): seq<seq<Event>>
    requires ValidDate(day)
  {
    Pack(TimedEvents(EventsForDate(day, events)))
  }

  /**
   * The columns drawn for a day hold exactly that day's timed events, each
   * as often as in the list: no event of another day, no all-day event,
   * none lost.
   */
  lemma DayColumnsHoldTheDaysTimedEvents(day: Date, events: seq<Event>, x: Event)
    requires ValidDate(day)
    ensures multiset(Flatten(DayColumns(day, events))) == multiset(TimedEvents(EventsForDate(day, events)))
    ensures x in Flatten(DayColumns(day, events)) <==> x in events && x.start.date == day && !x.isEvent
  {
    var dayEvents := EventsForDate(day, events);
    PackIsPermutation(TimedEvents(dayEvents));
    assert x in Flatten(DayColumns(day, events)) <==> x in TimedEvents(dayEvents) by {
      assert x in Flatten(DayColumns(day, events)) <==> x in multiset(Flatten(DayColumns(day, events)));
    }
    AllDayAndTimedMembers(dayEvents, x);
    EventsForDateMembers(day, events, x);
  }

  /** Three events from 09:00-10:00, 09:30-10:30 and 11:00-12:00: columns `[[e1, e3], [e2]]`. */
  lemma PackExample(e1: Event, e2: Event, e3: Event)
    requires e1.start.hour == 9 && e1.start.minute == 0 && e1.end.hour == 10 && e1.end.minute == 0
    requires e2.start.hour == 9 && e2.start.minute == 30 && e2.end.hour == 10 && e2.end.minute == 30
    requires e3.start.hour == 11 && e3.start.minute == 0 && e3.end.hour == 12 && e3.end.minute == 0
    ensures Pack([e1, e2, e3]) == [[e1, e3], [e2]]
    ensures Assignment([e1, e2, e3]) == [0, 1, 0]
  {
    var s := [e1, e2, e3];
    assert s[..2] == [e1, e2] && s[..2][..1] == [e1] && [e1][..0] == [];
    assert Pack([e1]) == [[e1]];
    assert Assignment([e1]) == [0];
    assert Overlaps(e2, e1);
    assert HasOverlap([e1], e2) by {
      assert Overlaps(e2, [e1][0]);
    }
    assert FirstFit([[e1]], e2) == 1;
    assert Pack([e1, e2]) == [[e1], [e2]];
    assert Assignment([e1, e2]) == [0, 1];
    assert !Overlaps(e3, e1);
    assert !HasOverlap([e1], e3);
    assert FirstFit([[e1], [e2]], e3) == 0;
    assert [e1] + [e3] == [e1, e3];
    assert [[e1], [e2]][0 := [e1, e3]] == [[e1, e3], [e2]];
    assert Pack(s) == Place(Pack(s[..2]), e3);
    assert FirstFit([[e1], [e2]], e3) == 0;
  }
}
