/**
 * The course side of the weekly schedule: which courses are shown for a momento tab,
 * where each one is placed (day column and minutes), how its time range is written, its
 * colour, and the desktop grid assembled from the compressed layout.
 *
 * The range parser the grid calls is not part of this model: it is the parameter
 * `parseRange`, from a course's time text to its start and end clock times.
 */
module WeekGrid {
  import opened Wrappers
  import opened Text
  import opened StableSort
  import opened WeekLayout
  import Seqs
  import Constants
  import ScheduleUtils

  type Clock = ScheduleUtils.Clock

  datatype ScheduleCourse = ScheduleCourse(
    id: string, code: string, name: string,
    day: Option<string>, time: Option<string>, momento: Option<string>, semester: int)

  /** A JavaScript text that is truthy: present and not empty. */
  predicate Present(text: Option<string>) {
    text.Some? && text.value != ""
  }

  /** `SCHEDULE_DAYS`: the six day columns, Monday to Saturday. */
  const ScheduleDays: seq<string> := ["lunes", "martes", "miercoles", "jueves", "viernes", "sabado"]

  /** The columns are the canonical days without Sunday. */
  lemma ScheduleDaysAreCanonical()
    ensures ScheduleDays == Constants.CanonicalDays[1..]
    ensures "domingo" !in ScheduleDays
  {
    var days := Constants.CanonicalDays;
    assert |days[1..]| == 6;
    forall i | 0 <= i < 6
      ensures ScheduleDays[i] == days[1..][i]
    {
    }
    forall i | 0 <= i < 6
      ensures ScheduleDays[i][0] != 'd'
    {
    }
  }

  /** Every column is already a normalized day name, and column `i` shows JavaScript weekday `i + 1`. */
  lemma ScheduleColumnsAreWeekdays()
    ensures forall i :: 0 <= i < |ScheduleDays| ==>
              ScheduleUtils.NormalizeDay(ScheduleDays[i]) == ScheduleDays[i]
              && ScheduleDays[i] in ScheduleUtils.DayToJs && ScheduleUtils.DayToJs[ScheduleDays[i]] == i + 1
  {
    ScheduleDaysAreCanonical();
    ScheduleUtils.CanonicalDaysNormalized();
    Constants.DayTablesConsistent();
    ScheduleUtils.DayToJsIsDayOrder();
    forall i | 0 <= i < |ScheduleDays|
      ensures ScheduleDays[i] == Constants.CanonicalDays[i + 1]
    {
      assert ScheduleDays[i] == Constants.CanonicalDays[1..][i];
    }
  }

  // ---------------------------------------------------------------------------
  // Momento tab and counts
  // ---------------------------------------------------------------------------

  /** The courses of momento tab `tab`: its own courses and the full-semester ones. */
  function MomentoCourses(courses: seq<ScheduleCourse>, tab: string): (r: seq<ScheduleCourse>)
    ensures Seqs.IsSubsequence(r, courses)
    ensures forall c :: c in r <==> c in courses && (c.momento == Some(tab) || c.momento == Some("FULL"))
  {
    Seqs.Filter(courses, (c: ScheduleCourse) => c.momento == Some(tab) || c.momento == Some("FULL"))
  }

  /** A course without a momento is shown under no tab. */
  lemma NoMomentoNotShown(courses: seq<ScheduleCourse>, tab: string, c: ScheduleCourse)
    requires c.momento.None?
    ensures c !in MomentoCourses(courses, tab)
  {
  }

  /** `classCount`: the shown courses that have a day. */
  function ClassCount(courses: seq<ScheduleCourse>): (n: nat)
    ensures n <= |courses|
    ensures n == |courses| <==> forall i :: 0 <= i < |courses| ==> Present(courses[i].day)
  {
    var hasDay := (c: ScheduleCourse) => Present(c.day);
    Seqs.FilterFull(courses, hasDay);
    |Seqs.Filter(courses, hasDay)|
  }

  /** The noun after the class count: singular for exactly one class, plural otherwise. */
  function ClassNoun(count: nat): (noun: string)
    ensures noun == "class" || noun == "classes"
    ensures noun == "class" <==> count == 1
  {
    if count == 1 then "class" else "classes"
  }

  /**
   * `courseIndexMap.get(id)`: every course's position is set in order, so a repeated id
   * keeps its last position.
   */
  function CourseIndex(courses: seq<ScheduleCourse>, id: string): (r: Option<nat>)
    ensures r.None? <==> forall i :: 0 <= i < |courses| ==> courses[i].id != id
    ensures r.Some? ==> r.value < |courses| && courses[r.value].id == id
                        && forall j :: r.value < j < |courses| ==> courses[j].id != id
  {
    if |courses| == 0 then None
    else if courses[|courses| - 1].id == id then Some(|courses| - 1)
    else CourseIndex(courses[..|courses| - 1], id)
  }

  /** `getColorForCourse(courseIndexMap.get(id) ?? 0)`: colours cycle through the ten gradients. */
  function CourseColor(courses: seq<ScheduleCourse>, id: string): (color: string)
    ensures color in Constants.SemesterColors
  {
    var index := match CourseIndex(courses, id) case Some(i) => i case None => 0;
    Constants.ColorAt(index)
  }

  /** Courses ten places apart share a colour; a course not in the list gets the first one. */
  lemma CourseColorCycles(courses: seq<ScheduleCourse>, id: string)
    ensures CourseIndex(courses, id).None? ==> CourseColor(courses, id) == Constants.SemesterColors[0]
    ensures CourseIndex(courses, id).Some? ==>
              CourseColor(courses, id) == Constants.SemesterColors[CourseIndex(courses, id).value % 10]
  {
  }

  // ---------------------------------------------------------------------------
  // Time labels
  // ---------------------------------------------------------------------------

  /**
   * `formatCompactRange`: the two `formatTime` texts joined by ` - `, except that a
   * start in the same half of the day as the end drops its period.
   */
  function CompactRange(start: Clock, end: Clock): (r: string)
    ensures (start.hours >= 12) != (end.hours >= 12) ==>
              r == ScheduleUtils.FormatTime(start.hours, start.minutes) + " - "
                   + ScheduleUtils.FormatTime(end.hours, end.minutes)
    ensures (start.hours >= 12) == (end.hours >= 12) ==>
              r == ScheduleUtils.ClockText(start.hours, start.minutes) + " - "
                   + ScheduleUtils.FormatTime(end.hours, end.minutes)
  {
    var startPeriod := ScheduleUtils.PeriodText(start.hours);
    var endPeriod := ScheduleUtils.PeriodText(end.hours);
    var a := ScheduleUtils.ClockText(start.hours, start.minutes);
    var b := ScheduleUtils.ClockText(end.hours, end.minutes);
    assert "PM" != "AM";
    RegroupRange(a, startPeriod, b, endPeriod);
    if startPeriod == endPeriod then
      a + " - " + b + " " + endPeriod
    else
      a + " " + startPeriod + " - " + b + " " + endPeriod
  }

  lemma RegroupRange(a: string, startPeriod: string, b: string, endPeriod: string)
    ensures a + " " + startPeriod + " - " + b + " " + endPeriod
            == (a + " " + startPeriod) + " - " + (b + " " + endPeriod)
    ensures a + " - " + b + " " + endPeriod == a + " - " + (b + " " + endPeriod)
  {
  }

  // ---------------------------------------------------------------------------
  // Positioning
  // ---------------------------------------------------------------------------

  /** `endMinutes += 12 * 60` while the end is not after the start. */
  function AdjustEnd(start: int, end: int): (r: int)
    ensures r > start && r >= end
    ensures end > start ==> r == end
    ensures end <= start ==> r <= start + 720
    ensures (r - end) % 720 == 0
    decreases start - end + 720
  {
    if end > start then end else AdjustEnd(start, end + 720)
  }

  /** The adjustment loop as written, checked against `AdjustEnd`. */
  method AdjustEndLoop(start: int, end: int) returns (r: int)
    ensures r == AdjustEnd(start, end)
  {
    r := end;
    while r <= start
      invariant AdjustEnd(start, r) == AdjustEnd(start, end)
      decreases start - r
    {
      r := r + 12 * 60;
    }
  }

  /** A course placed on the grid: its column, its minutes since midnight, its label. */
  datatype Entry = Entry(course: ScheduleCourse, dayIdx: int, startMinutes: int, endMinutes: int, timeLabel: string)

  /**
   * Where a course goes, if anywhere: it is placed exactly when it has a day and a time
   * and its normalized day is one of the six columns. It then sits in that day's column,
   * starts at its parsed start and ends after it.
   */
  function Position(c: ScheduleCourse, parseRange: string -> (Clock, Clock)): (r: Option<Entry>)
    ensures r.Some? <==>
              Present(c.day) && Present(c.time) && ScheduleUtils.NormalizeDay(c.day.value) in ScheduleDays
    ensures r.Some? ==>
              var range := parseRange(c.time.value);
              && r.value.course == c
              && 0 <= r.value.dayIdx < |ScheduleDays|
              && ScheduleDays[r.value.dayIdx] == ScheduleUtils.NormalizeDay(c.day.value)
              && r.value.startMinutes == range.0.hours * 60 + range.0.minutes
              && r.value.startMinutes < r.value.endMinutes
  {
    if !(Present(c.day) && Present(c.time)) then None
    else
      var dayIdx := Seqs.IndexOf(ScheduleDays, ScheduleUtils.NormalizeDay(c.day.value));
      var range := parseRange(c.time.value);
      var startMinutes := range.0.hours * 60 + range.0.minutes;
      var endMinutes := AdjustEnd(startMinutes, range.1.hours * 60 + range.1.minutes);
      if dayIdx < 0 then None
      else Some(Entry(c, dayIdx, startMinutes, endMinutes, CompactRange(range.0, range.1)))
  }

  /** A Sunday class has no column and is not placed. */
  lemma SundayNotPlaced(c: ScheduleCourse, parseRange: string -> (Clock, Clock))
    requires c.day.Some? && ScheduleUtils.NormalizeDay(c.day.value) == "domingo"
    ensures Position(c, parseRange).None?
  {
    ScheduleDaysAreCanonical();
  }

  predicate IsPresent<T>(o: Option<T>) {
    o.Some?
  }

  /**
   * The values of the present options, in order: a `map` followed by a `filter`. The
   * result lists, one for one and in order, the options the filter keeps.
   */
  function Somes<T(!new)>(opts: seq<Option<T>>): (r: seq<T>)
    ensures var kept := Seqs.Filter(opts, IsPresent<T>);
            |r| == |kept| && forall i :: 0 <= i < |r| ==> kept[i] == Some(r[i])
    ensures |r| <= |opts|
    ensures forall x :: x in r <==> Some(x) in opts
  {
    if |opts| == 0 then []
    else
      assert opts == [opts[0]] + opts[1..];
      (match opts[0] case Some(x) => [x] case None => []) + Somes(opts[1..])
  }

  /** Options present only where `p` holds are at most as many as the elements passing `p`. */
  lemma {:induction false} SomesWithin<T(!new), U(!new)>(opts: seq<Option<T>>, xs: seq<U>, p: U -> bool)
    requires |opts| == |xs|
    requires forall i :: 0 <= i < |xs| && opts[i].Some? ==> p(xs[i])
    ensures |Somes(opts)| <= |Seqs.Filter(xs, p)|
  {
    if |xs| > 0 {
      SomesWithin(opts[1..], xs[1..], p);
    }
  }

  /** Each course's placement, if any, in course order. */
  function Placements(courses: seq<ScheduleCourse>, parseRange: string -> (Clock, Clock)): (r: seq<Option<Entry>>)
    ensures |r| == |courses|
    ensures forall i :: 0 <= i < |courses| ==> r[i] == Position(courses[i], parseRange)
  {
    seq(|courses|, i requires 0 <= i < |courses| => Position(courses[i], parseRange))
  }

  /**
   * `positionedCourses`: the placed courses, in course order. Entry `i` is the `i`-th
   * placement that is present, so each placement appears once per course that has it.
   */
  function Positioned(courses: seq<ScheduleCourse>, parseRange: string -> (Clock, Clock)): (r: seq<Entry>)
    ensures var kept := Seqs.Filter(Placements(courses, parseRange), IsPresent<Entry>);
            |r| == |kept| && forall i :: 0 <= i < |r| ==> kept[i] == Some(r[i])
    ensures |r| <= |courses|
    ensures forall e :: e in r <==> exists i :: 0 <= i < |courses| && Position(courses[i], parseRange) == Some(e)
  {
    Somes(Placements(courses, parseRange))
  }

  /** A placed class ends after it starts and sits in one of the six columns. */
  lemma PositionedEntries(courses: seq<ScheduleCourse>, parseRange: string -> (Clock, Clock))
    ensures forall e :: e in Positioned(courses, parseRange) ==>
              e.startMinutes < e.endMinutes && 0 <= e.dayIdx < |ScheduleDays|
  {
    forall e | e in Positioned(courses, parseRange)
      ensures e.startMinutes < e.endMinutes && 0 <= e.dayIdx < |ScheduleDays|
    {
      var i :| 0 <= i < |courses| && Position(courses[i], parseRange) == Some(e);
    }
  }

  /** Every placed course has a day, so the header's class count is at least the placed count. */
  lemma ClassCountCoversPositioned(courses: seq<ScheduleCourse>, parseRange: string -> (Clock, Clock))
    ensures |Positioned(courses, parseRange)| <= ClassCount(courses)
  {
    var opts := Placements(courses, parseRange);
    assert forall i :: 0 <= i < |courses| && opts[i].Some? ==> Present(courses[i].day);
    SomesWithin(opts, courses, (c: ScheduleCourse) => Present(c.day));
  }

  // ---------------------------------------------------------------------------
  // The desktop grid
  // ---------------------------------------------------------------------------

  /** `rawIntervals` before sorting: each placed class rounded out to whole hours. */
  function RoundedBlocks(entries: seq<Entry>): (r: seq<Interval>)
    ensures |r| == |entries|
    ensures forall i :: 0 <= i < |entries| ==> r[i] == RoundOut(entries[i].startMinutes, entries[i].endMinutes)
  {
    seq(|entries|, i requires 0 <= i < |entries| => RoundOut(entries[i].startMinutes, entries[i].endMinutes))
  }

  /** `mergedSegments`: one list for all six columns. */
  function Segments(entries: seq<Entry>): seq<Interval> {
    Merge(Sort(RoundedBlocks(entries), StartKey()))
  }

  /** A placed class's span and its whole-hour rounding. */
  function Span(e: Entry): Interval {
    Interval(e.startMinutes, e.endMinutes)
  }

  lemma {:induction false} SortedBlocksProper(entries: seq<Entry>)
    requires forall e :: e in entries ==> e.startMinutes < e.endMinutes
    ensures var sorted := Sort(RoundedBlocks(entries), StartKey());
            Proper(sorted) && SortedByStart(sorted)
            && multiset(sorted) == multiset(RoundedBlocks(entries))
  {
    var rounded := RoundedBlocks(entries);
    var sorted := Sort(rounded, StartKey());
    SortProperties(rounded, StartKey());
    forall k | 0 <= k < |sorted|
      ensures sorted[k].start <= sorted[k].end
    {
      assert sorted[k] in multiset(rounded);
      var i :| 0 <= i < |rounded| && rounded[i] == sorted[k];
      assert entries[i] in entries;
    }
    forall a, b | 0 <= a < b < |sorted|
      ensures sorted[a].start <= sorted[b].start
    {
      assert KeyLe(StartKey()(sorted[a]), StartKey()(sorted[b]));
    }
  }

  /** The merged segments are ordered and separated, and exist whenever some class is placed. */
  lemma SegmentsShape(entries: seq<Entry>)
    requires forall e :: e in entries ==> e.startMinutes < e.endMinutes
    ensures Proper(Segments(entries)) && Separated(Segments(entries))
    ensures |entries| > 0 ==> |Segments(entries)| > 0
  {
    var rounded := RoundedBlocks(entries);
    var sorted := Sort(rounded, StartKey());
    SortedBlocksProper(entries);
    MergeShape(sorted);
    if |entries| > 0 {
      assert rounded[0] in multiset(sorted);
    }
  }

  /**
   * The merged segments are ordered and separated, exist whenever some class is placed,
   * and every placed class lies inside one of them.
   */
  lemma SegmentsCover(entries: seq<Entry>)
    requires forall e :: e in entries ==> e.startMinutes < e.endMinutes
    ensures Proper(Segments(entries)) && Separated(Segments(entries))
    ensures |entries| > 0 ==> |Segments(entries)| > 0
    ensures forall i :: 0 <= i < |entries| ==>
              exists j :: 0 <= j < |Segments(entries)| && Inside(Span(entries[i]), Segments(entries)[j])
  {
    SegmentsShape(entries);
    RoundedBlocksCovered(entries);
    var rounded := RoundedBlocks(entries);
    var segs := Segments(entries);
    forall i | 0 <= i < |entries|
      ensures exists j :: 0 <= j < |segs| && Inside(Span(entries[i]), segs[j])
    {
      var j :| 0 <= j < |segs| && Inside(rounded[i], segs[j]);
      assert Inside(Span(entries[i]), segs[j]);
    }
  }

  /** Sorting only permutes the rounded blocks, so each of them is covered by a merged segment. */
  lemma RoundedBlocksCovered(entries: seq<Entry>)
    requires forall e :: e in entries ==> e.startMinutes < e.endMinutes
    ensures forall i :: 0 <= i < |entries| ==> CoveredBy(RoundedBlocks(entries)[i], Segments(entries))
  {
    var rounded := RoundedBlocks(entries);
    var sorted := Sort(rounded, StartKey());
    SortedBlocksProper(entries);
    MergeCovers(sorted);
    forall i | 0 <= i < |entries| ensures CoveredBy(rounded[i], Segments(entries)) {
      assert rounded[i] in multiset(sorted);
      var k :| 0 <= k < |sorted| && sorted[k] == rounded[i];
    }
  }

  /** Where the content starts once centred in the grid. */
  function GridTop(entries: seq<Entry>): real {
    TopOffset(ContentHeight(Segments(entries)))
  }

  /** Each placed class's block is as tall as the class lasts, with a 68 px minimum. */
  lemma BlockHeightsTrueToLength(entries: seq<Entry>)
    requires |entries| > 0 && forall e :: e in entries ==> e.startMinutes < e.endMinutes
    ensures |Layout(Segments(entries))| > 0
    ensures forall i :: 0 <= i < |entries| ==>
              var span := (entries[i].endMinutes - entries[i].startMinutes) as real * MinuteHeight;
              BlockHeight(Layout(Segments(entries)), GridTop(entries), entries[i].startMinutes, entries[i].endMinutes)
              == if 68.0 >= span then 68.0 else span
  {
    SegmentsCover(entries);
    var segs := Segments(entries);
    LayoutWellFormed(segs);
    forall i | 0 <= i < |entries|
      ensures var span := (entries[i].endMinutes - entries[i].startMinutes) as real * MinuteHeight;
              BlockHeight(Layout(segs), GridTop(entries), entries[i].startMinutes, entries[i].endMinutes)
              == if 68.0 >= span then 68.0 else span
    {
      var j :| 0 <= j < |segs| && Inside(Span(entries[i]), segs[j]);
      BlockHeightInsideSegment(Layout(segs), GridTop(entries), j, entries[i].startMinutes, entries[i].endMinutes);
    }
  }

  /** A class that starts no later than another is drawn no lower. */
  lemma TopsFollowStarts(entries: seq<Entry>)
    requires |entries| > 0 && forall e :: e in entries ==> e.startMinutes < e.endMinutes
    ensures |Layout(Segments(entries))| > 0
    ensures forall i, k :: 0 <= i < |entries| && 0 <= k < |entries| && entries[i].startMinutes <= entries[k].startMinutes ==>
              MinuteToPx(Layout(Segments(entries)), GridTop(entries), entries[i].startMinutes)
              <= MinuteToPx(Layout(Segments(entries)), GridTop(entries), entries[k].startMinutes)
  {
    SegmentsShape(entries);
    var segs := Segments(entries);
    LayoutWellFormed(segs);
    forall i, k | 0 <= i < |entries| && 0 <= k < |entries| && entries[i].startMinutes <= entries[k].startMinutes
      ensures MinuteToPx(Layout(segs), GridTop(entries), entries[i].startMinutes)
              <= MinuteToPx(Layout(segs), GridTop(entries), entries[k].startMinutes)
    {
      MinuteToPxMonotone(Layout(segs), GridTop(entries), entries[i].startMinutes, entries[k].startMinutes);
    }
  }

  datatype Placed = Placed(entry: Entry, topPx: real, heightPx: real)

  datatype Schedule =
    | EmptyState
    | Grid(gridHeight: real, markers: seq<HourMarker>, placed: seq<Placed>)

  /** `DesktopSchedule`: the empty state, or the grid with its markers and class blocks. */
  function DesktopSchedule(courses: seq<ScheduleCourse>, parseRange: string -> (Clock, Clock)): (v: Schedule)
    ensures v.EmptyState? <==> |courses| == 0 || |Positioned(courses, parseRange)| == 0
    ensures v.Grid? ==>
              var entries := Positioned(courses, parseRange);
              var layout := Layout(Segments(entries));
              && |layout| > 0
              && v.gridHeight == GridHeight(ContentHeight(Segments(entries)))
              && v.markers == HourMarkers(layout, GridTop(entries), |layout|)
              && |v.placed| == |entries|
              && forall i :: 0 <= i < |v.placed| ==>
                   v.placed[i] == Placed(entries[i], MinuteToPx(layout, GridTop(entries), entries[i].startMinutes),
                                         BlockHeight(layout, GridTop(entries), entries[i].startMinutes, entries[i].endMinutes))
  {
    var entries := Positioned(courses, parseRange);
    if |courses| == 0 || |entries| == 0 then EmptyState
    else
      PositionedEntries(courses, parseRange);
      SegmentsShape(entries);
      var layout := Layout(Segments(entries));
      var top := GridTop(entries);
      Grid(GridHeight(ContentHeight(Segments(entries))), HourMarkers(layout, top, |layout|),
           seq(|entries|, i requires 0 <= i < |entries| =>
             Placed(entries[i], MinuteToPx(layout, top, entries[i].startMinutes),
                    BlockHeight(layout, top, entries[i].startMinutes, entries[i].endMinutes))))
  }

  /**
   * In the desktop grid every class block is as tall as the class lasts, 80 px per hour
   * with a 68 px minimum, and a class that starts no later than another is drawn no lower.
   */
  lemma BlocksTrueToLength(courses: seq<ScheduleCourse>, parseRange: string -> (Clock, Clock))
    ensures var v := DesktopSchedule(courses, parseRange);
            v.Grid? ==>
              && (forall i :: 0 <= i < |v.placed| ==>
                    var span := (v.placed[i].entry.endMinutes - v.placed[i].entry.startMinutes) as real * MinuteHeight;
                    v.placed[i].heightPx == if 68.0 >= span then 68.0 else span)
              && (forall i, k ::
                    (0 <= i < |v.placed| && 0 <= k < |v.placed|
                     && v.placed[i].entry.startMinutes <= v.placed[k].entry.startMinutes) ==>
                    v.placed[i].topPx <= v.placed[k].topPx)
  {
    var v := DesktopSchedule(courses, parseRange);
    if v.Grid? {
      var entries := Positioned(courses, parseRange);
      PositionedEntries(courses, parseRange);
      BlockHeightsTrueToLength(entries);
      TopsFollowStarts(entries);
      PlacedBlocks(v.placed, entries, Layout(Segments(entries)), GridTop(entries));
    }
  }

  /** Blocks placed at `MinuteToPx` with `BlockHeight` inherit the two facts the entries have. */
  lemma PlacedBlocks(placed: seq<Placed>, entries: seq<Entry>, layout: seq<LayoutSegment>, top: real)
    requires |layout| > 0 && |placed| == |entries|
    requires forall i :: 0 <= i < |placed| ==>
               placed[i] == Placed(entries[i], MinuteToPx(layout, top, entries[i].startMinutes),
                                   BlockHeight(layout, top, entries[i].startMinutes, entries[i].endMinutes))
    requires forall i :: 0 <= i < |entries| ==>
               var span := (entries[i].endMinutes - entries[i].startMinutes) as real * MinuteHeight;
               BlockHeight(layout, top, entries[i].startMinutes, entries[i].endMinutes)
               == if 68.0 >= span then 68.0 else span
    requires forall i, k :: 0 <= i < |entries| && 0 <= k < |entries| && entries[i].startMinutes <= entries[k].startMinutes ==>
               MinuteToPx(layout, top, entries[i].startMinutes) <= MinuteToPx(layout, top, entries[k].startMinutes)
    ensures forall i :: 0 <= i < |placed| ==>
              var span := (placed[i].entry.endMinutes - placed[i].entry.startMinutes) as real * MinuteHeight;
              placed[i].heightPx == if 68.0 >= span then 68.0 else span
    ensures forall i, k ::
              (0 <= i < |placed| && 0 <= k < |placed|
               && placed[i].entry.startMinutes <= placed[k].entry.startMinutes) ==>
              placed[i].topPx <= placed[k].topPx
  {
  }
}
