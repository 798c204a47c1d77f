/**
 * The compressed time axis of the desktop schedule in
 * `src/components/schedule/week-grid.tsx`: class times rounded out to whole hours,
 * sorted and merged when less than an hour apart, stacked with a fixed gap, centred in
 * a grid of minimum height, and mapped from minutes to pixels piecewise-linearly.
 *
 * Pixel values are exact reals; the source computes them in floating point.
 */
module WeekLayout {

  import opened Wrappers
  import opened Text
  import opened StableSort
  import ScheduleUtils
  import Seqs

  /** A span of minutes since midnight. */
  datatype Interval = Interval(start: int, end: int)

  /** `MINUTE_HEIGHT_PX`: 80 pixels per hour. */
  const MinuteHeight: real := 80.0 / 60.0
  const CompressedGap: real := 26.0
  const MergeGapMinutes: int := 60
  const MinGridHeight: real := 280.0
  const TopPadding: real := 20.0
  const BottomPadding: real := 48.0

  /** `Math.floor(m / 60) * 60`: the whole hour at or before `m`. */
  function FloorHour(m: int): (r: int)
    ensures r % 60 == 0 && r <= m < r + 60
  {
    (m / 60) * 60
  }

  /** `Math.ceil(m / 60) * 60`: the whole hour at or after `m`. */
  function CeilHour(m: int): (r: int)
    ensures r % 60 == 0 && r - 60 < m <= r
  {
    -(((-m) / 60) * 60)
  }

  /** A class's span rounded outward to whole hours. */
  function RoundOut(start: int, end: int): (iv: Interval)
    ensures iv.start % 60 == 0 && iv.end % 60 == 0
    ensures iv.start <= start && end <= iv.end
    ensures start - 60 < iv.start && iv.end < end + 60
  {
    Interval(FloorHour(start), CeilHour(end))
  }

  predicate Proper(s: seq<Interval>) {
    forall i :: 0 <= i < |s| ==> s[i].start <= s[i].end
  }

  predicate SortedByStart(s: seq<Interval>) {
    forall i, j :: 0 <= i < j < |s| ==> s[i].start <= s[j].start
  }

  /** Each segment ends more than `MERGE_GAP_MINUTES` before any later one starts. */
  predicate Separated(s: seq<Interval>) {
    forall i, j :: 0 <= i < j < |s| ==> s[i].end + MergeGapMinutes < s[j].start
  }

  predicate Inside(iv: Interval, seg: Interval) {
    seg.start <= iv.start && iv.end <= seg.end
  }

  ghost predicate CoveredBy(iv: Interval, segs: seq<Interval>) {
    exists i :: 0 <= i < |segs| && Inside(iv, segs[i])
  }

  /** The key `rawIntervals` are sorted by. */
  function StartKey(): Interval -> SortKey {
    (iv: Interval) => SortKey(iv.start as real, 0.0)
  }

  /**
   * One iteration of the merge loop: the first interval opens a segment; one starting
   * at most an hour after the last segment's end extends it; any other opens a new one.
   */
  function MergeStep(segs: seq<Interval>, iv: Interval): seq<Interval> {
    if |segs| == 0 then [iv]
    else
      var last := segs[|segs| - 1];
      if iv.start - last.end <= MergeGapMinutes then
        segs[|segs| - 1 := Interval(last.start, if last.end >= iv.end then last.end else iv.end)]
      else segs + [iv]
  }

  /**
   * `mergedSegments`: the merge loop over `intervals` in order. It never yields more
   * segments than intervals, and yields none only when there is no interval.
   */
  function Merge(intervals: seq<Interval>): (r: seq<Interval>)
    ensures |r| <= |intervals|
    ensures |r| == 0 <==> |intervals| == 0
  {
    if |intervals| == 0 then []
    else MergeStep(Merge(intervals[..|intervals| - 1]), intervals[|intervals| - 1])
  }

  lemma MergeStepProperties(segs: seq<Interval>, iv: Interval)
    requires Proper(segs) && Separated(segs) && iv.start <= iv.end
    requires |segs| > 0 ==> segs[|segs| - 1].start <= iv.start
    ensures var r := MergeStep(segs, iv);
            && Proper(r) && Separated(r) && |r| > 0
            && r[|r| - 1].start <= iv.start
            && Inside(iv, r[|r| - 1])
            && (forall i :: 0 <= i < |segs| ==> Inside(segs[i], r[if i < |r| then i else |r| - 1]))
  {
  }

  /**
   * Merging sorted proper intervals yields proper segments that are sorted and more
   * than an hour apart, and every input interval lies inside one of them.
   */
  lemma PrefixStaysSorted(intervals: seq<Interval>)
    requires Proper(intervals) && SortedByStart(intervals) && |intervals| > 0
    ensures var n := |intervals| - 1;
            && Proper(intervals[..n]) && SortedByStart(intervals[..n])
            && intervals[n].start <= intervals[n].end
            && (n > 0 ==> intervals[..n][n - 1].start <= intervals[n].start)
  {
  }

  lemma {:induction false} MergeProperties(intervals: seq<Interval>)
    requires Proper(intervals) && SortedByStart(intervals)
    ensures var r := Merge(intervals);
            && Proper(r) && Separated(r)
            && (|intervals| > 0 ==> |r| > 0 && r[|r| - 1].start <= intervals[|intervals| - 1].start)
            && forall k :: 0 <= k < |intervals| ==> CoveredBy(intervals[k], r)
  {
    MergeShape(intervals);
    MergeCovers(intervals);
  }

  /** The segments are proper, separated, present exactly when there is input, and the last opens no later than the last input. */
  lemma {:induction false} MergeShape(intervals: seq<Interval>)
    requires Proper(intervals) && SortedByStart(intervals)
    ensures var r := Merge(intervals);
            && Proper(r) && Separated(r)
            && (|intervals| > 0 <==> |r| > 0)
            && (|intervals| > 0 ==> r[|r| - 1].start <= intervals[|intervals| - 1].start)
  {
    if |intervals| > 0 {
      var n := |intervals| - 1;
      var prefix, iv := intervals[..n], intervals[n];
      var segs := Merge(prefix);
      assert Proper(segs) && Separated(segs) && (|segs| > 0 ==> segs[|segs| - 1].start <= iv.start) by {
        assert Proper(prefix) && SortedByStart(prefix);
        MergeShape(prefix);
      }
      assert iv.start <= iv.end;
      MergeStepProperties(segs, iv);
    }
  }

  /** Every input interval lies inside some merged segment. */
  lemma {:induction false} MergeCovers(intervals: seq<Interval>)
    requires Proper(intervals) && SortedByStart(intervals)
    ensures forall k :: 0 <= k < |intervals| ==> CoveredBy(intervals[k], Merge(intervals))
  {
    if |intervals| > 0 {
      var n := |intervals| - 1;
      var prefix, iv := intervals[..n], intervals[n];
      var segs := Merge(prefix);
      PrefixStaysSorted(intervals);
      MergePrefixShape(intervals);
      MergeCovers(prefix);
      assert prefix + [iv] == intervals;
      MergeStepCovers(prefix, segs, iv, intervals);
    }
  }

  /** The segments merged from all but the last interval are ready for the last one. */
  lemma MergePrefixShape(intervals: seq<Interval>)
    requires Proper(intervals) && SortedByStart(intervals) && |intervals| > 0
    ensures var n := |intervals| - 1;
            var segs := Merge(intervals[..n]);
            Proper(segs) && Separated(segs) && (|segs| > 0 ==> segs[|segs| - 1].start <= intervals[n].start)
  {
    var n := |intervals| - 1;
    PrefixStaysSorted(intervals);
    MergeShape(intervals[..n]);
  }

  lemma MergeStepCovers(prefix: seq<Interval>, segs: seq<Interval>, iv: Interval, all: seq<Interval>)
    requires forall k :: 0 <= k < |prefix| ==> CoveredBy(prefix[k], segs)
    requires Proper(segs) && Separated(segs) && iv.start <= iv.end
    requires |segs| > 0 ==> segs[|segs| - 1].start <= iv.start
    requires all == prefix + [iv]
    ensures forall k :: 0 <= k < |all| ==> CoveredBy(all[k], MergeStep(segs, iv))
  {
    var r := MergeStep(segs, iv);
    MergeStepProperties(segs, iv);
    forall k | 0 <= k < |all| ensures CoveredBy(all[k], r) {
      if k < |prefix| {
        assert all[k] == prefix[k];
        var i :| 0 <= i < |segs| && Inside(prefix[k], segs[i]);
        var j := if i < |r| then i else |r| - 1;
        assert Inside(segs[i], r[j]);
      } else {
        assert Inside(all[k], r[|r| - 1]);
      }
    }
  }

  /** Separated segments overlap no interval twice: the covering segment is unique. */
  lemma CoveringSegmentUnique(segs: seq<Interval>, iv: Interval)
    requires Separated(segs) && iv.start <= iv.end
    ensures forall i, j :: 0 <= i < |segs| && 0 <= j < |segs| && Inside(iv, segs[i]) && Inside(iv, segs[j]) ==> i == j
  {
  }

  /** The merge loop of the source, with `last.end` updated in place. */
  method MergeLoop(intervals: seq<Interval>) returns (segs: seq<Interval>)
    ensures segs == Merge(intervals)
  {
    segs := [];
    var k := 0;
    while k < |intervals|
      invariant 0 <= k <= |intervals|
      invariant segs == Merge(intervals[..k])
    {
      var iv := intervals[k];
      assert intervals[..k + 1][..k] == intervals[..k];
      if |segs| == 0 {
        segs := [iv];
      } else {
        var last := segs[|segs| - 1];
        if iv.start - last.end <= MergeGapMinutes {
          var newEnd := if last.end >= iv.end then last.end else iv.end;
          segs := segs[|segs| - 1 := Interval(last.start, newEnd)];
        } else {
          segs := segs + [iv];
        }
      }
      k := k + 1;
    }
    assert intervals[..k] == intervals;
  }

  /** A merged segment placed on the compressed axis. */
  datatype LayoutSegment = LayoutSegment(start: int, end: int, offset: real, height: real)

  /** `(segment.end - segment.start) * MINUTE_HEIGHT_PX`. */
  function SegmentHeight(seg: Interval): real {
    (seg.end - seg.start) as real * MinuteHeight
  }

  function SumHeights(segs: seq<Interval>): real {
    if |segs| == 0 then 0.0 else SumHeights(segs[..|segs| - 1]) + SegmentHeight(segs[|segs| - 1])
  }

  /** The offset of segment `i`: every earlier segment's height plus one gap after each. */
  function OffsetOf(segs: seq<Interval>, i: nat): real
    requires i <= |segs|
  {
    SumHeights(segs[..i]) + CompressedGap * i as real
  }

  /** `layoutSegments`: each merged segment with its offset and height. */
  function Layout(segs: seq<Interval>): (layout: seq<LayoutSegment>)
    ensures |layout| == |segs|
    ensures forall i :: 0 <= i < |segs| ==>
              layout[i] == LayoutSegment(segs[i].start, segs[i].end, OffsetOf(segs, i), SegmentHeight(segs[i]))
  {
    seq(|segs|, i requires 0 <= i < |segs| =>
      LayoutSegment(segs[i].start, segs[i].end, OffsetOf(segs, i), SegmentHeight(segs[i])))
  }

  /**
   * `contentHeight`: all heights plus a gap between each neighbouring pair; 0 for no
   * segment. With segments it is the bottom of the last one.
   */
  function ContentHeight(segs: seq<Interval>): (h: real)
    ensures |segs| == 0 ==> h == 0.0
    ensures |segs| > 0 ==> h == OffsetOf(segs, |segs| - 1) + SegmentHeight(segs[|segs| - 1])
  {
    if |segs| == 0 then 0.0 else SumHeights(segs) + CompressedGap * (|segs| - 1) as real
  }

  /**
   * The first segment sits at offset 0, each next one a height and a gap further down,
   * and the content ends at the last segment's bottom.
   */
  lemma LayoutStacks(segs: seq<Interval>)
    ensures |segs| > 0 ==> Layout(segs)[0].offset == 0.0
    ensures forall i :: 0 <= i < |segs| - 1 ==>
              Layout(segs)[i + 1].offset == Layout(segs)[i].offset + Layout(segs)[i].height + CompressedGap
    ensures |segs| > 0 ==> ContentHeight(segs) == Layout(segs)[|segs| - 1].offset + Layout(segs)[|segs| - 1].height
  {
    if |segs| > 0 {
      assert segs[..0] == [];
      assert segs[..|segs|] == segs;
    }
    forall i | 0 <= i < |segs| - 1
      ensures Layout(segs)[i + 1].offset == Layout(segs)[i].offset + Layout(segs)[i].height + CompressedGap
    {
      assert segs[..i + 1][..i] == segs[..i];
    }
  }

  /** The offset loop of the source, accumulating `runningOffset`. */
  method LayoutLoop(segs: seq<Interval>) returns (layout: seq<LayoutSegment>, contentHeight: real)
    ensures layout == Layout(segs)
    ensures contentHeight == ContentHeight(segs)
  {
    layout := [];
    var running := 0.0;
    var index := 0;
    while index < |segs|
      invariant 0 <= index <= |segs|
      invariant layout == Layout(segs)[..index]
      invariant index < |segs| ==> running == OffsetOf(segs, index)
      invariant index == |segs| ==> running == ContentHeight(segs)
    {
      var segment := segs[index];
      var height := (segment.end - segment.start) as real * MinuteHeight;
      assert segs[..index + 1][..index] == segs[..index];
      layout := layout + [LayoutSegment(segment.start, segment.end, running, height)];
      running := running + height;
      if index < |segs| - 1 {
        running := running + CompressedGap;
      } else {
        assert segs[..index + 1] == segs;
      }
      index := index + 1;
    }
    assert Layout(segs)[..|segs|] == Layout(segs);
    contentHeight := running;
  }

  /**
   * `Math.max(MIN_GRID_HEIGHT_PX, contentHeight + requiredPadding)`: the least height
   * that is at least 280 px and holds the content with both paddings.
   */
  function GridHeight(contentHeight: real): (h: real)
    ensures h >= MinGridHeight && h >= contentHeight + TopPadding + BottomPadding
    ensures h == MinGridHeight || h == contentHeight + TopPadding + BottomPadding
  {
    var required := contentHeight + TopPadding + BottomPadding;
    if MinGridHeight >= required then MinGridHeight else required
  }

  /**
   * Where the content starts: the top padding plus half of the spare height, so the
   * spare height is split evenly above and below, and content that needs more than the
   * minimum starts right after the top padding.
   */
  function TopOffset(contentHeight: real): (t: real)
    ensures t >= TopPadding
    ensures GridHeight(contentHeight) - (t + contentHeight) - BottomPadding == t - TopPadding
    ensures contentHeight + TopPadding + BottomPadding >= MinGridHeight ==> t == TopPadding
  {
    TopPadding + (GridHeight(contentHeight) - contentHeight - TopPadding - BottomPadding) / 2.0
  }

  /** What `minuteToPx` needs of the layout: ordered segments stacked with gaps. */
  predicate WellFormed(layout: seq<LayoutSegment>) {
    && (forall i :: 0 <= i < |layout| ==>
          layout[i].start <= layout[i].end
          && layout[i].height == (layout[i].end - layout[i].start) as real * MinuteHeight)
    && (forall i, j :: 0 <= i < j < |layout| ==> layout[i].end < layout[j].start)
    && (forall i :: 0 <= i < |layout| - 1 ==>
          layout[i + 1].offset == layout[i].offset + layout[i].height + CompressedGap)
  }

  /** The layout of merged segments is well formed. */
  lemma LayoutWellFormed(segs: seq<Interval>)
    requires Proper(segs) && Separated(segs)
    ensures WellFormed(Layout(segs))
  {
    LayoutStacks(segs);
  }

  /** The loop of `minuteToPx`, from segment `k` on. */
  function ScanFrom(layout: seq<LayoutSegment>, top: real, k: nat, minute: int): real
    requires 0 < |layout| && k <= |layout|
    decreases |layout| - k
  {
    if k == |layout| then
      top + layout[|layout| - 1].offset + layout[|layout| - 1].height
    else if minute < layout[k].start then
      top + layout[k].offset
    else if minute <= layout[k].end then
      top + layout[k].offset + (minute - layout[k].start) as real * MinuteHeight
    else
      ScanFrom(layout, top, k + 1, minute)
  }

  /**
   * `minuteToPx`: the pixel position of a minute on the compressed axis. The source
   * only calls it once at least one segment exists.
   */
  function MinuteToPx(layout: seq<LayoutSegment>, top: real, minute: int): (px: real)
    requires 0 < |layout|
    ensures WellFormed(layout) && minute <= layout[0].start ==> px == top + layout[0].offset
    ensures WellFormed(layout) ==>
              top + layout[0].offset <= px <= top + layout[|layout| - 1].offset + layout[|layout| - 1].height
    ensures WellFormed(layout) && layout[|layout| - 1].end < minute ==>
              px == top + layout[|layout| - 1].offset + layout[|layout| - 1].height
  {
    if WellFormed(layout) then
      ScanBounds(layout, top, 0, minute);
      if layout[|layout| - 1].end < minute then
        ScanPast(layout, top, 0, minute);
        ScanFrom(layout, top, 0, minute)
      else ScanFrom(layout, top, 0, minute)
    else ScanFrom(layout, top, 0, minute)
  }

  lemma {:induction false} ScanInside(layout: seq<LayoutSegment>, top: real, k: nat, i: nat, minute: int)
    requires 0 < |layout| && WellFormed(layout)
    requires k <= i < |layout| && layout[i].start <= minute <= layout[i].end
    ensures ScanFrom(layout, top, k, minute)
            == top + layout[i].offset + (minute - layout[i].start) as real * MinuteHeight
    decreases i - k
  {
    if k < i {
      assert layout[k].end < layout[i].start;
      ScanInside(layout, top, k + 1, i, minute);
    }
  }

  /** A minute inside segment `i` lies that far below the segment's top. */
  lemma MinuteToPxInside(layout: seq<LayoutSegment>, top: real, i: nat, minute: int)
    requires 0 < |layout| && WellFormed(layout)
    requires i < |layout| && layout[i].start <= minute <= layout[i].end
    ensures MinuteToPx(layout, top, minute)
            == top + layout[i].offset + (minute - layout[i].start) as real * MinuteHeight
  {
    ScanInside(layout, top, 0, i, minute);
  }

  lemma {:induction false} ScanGap(layout: seq<LayoutSegment>, top: real, k: nat, i: nat, minute: int)
    requires 0 < |layout| && WellFormed(layout)
    requires k <= i < |layout| && minute < layout[i].start
    requires i == 0 || layout[i - 1].end < minute
    ensures ScanFrom(layout, top, k, minute) == top + layout[i].offset
    decreases i - k
  {
    if k < i {
      assert layout[k].end <= layout[i - 1].end;
      ScanGap(layout, top, k + 1, i, minute);
    }
  }

  /** A minute before segment `i` but after the previous one maps to segment `i`'s top. */
  lemma MinuteToPxGap(layout: seq<LayoutSegment>, top: real, i: nat, minute: int)
    requires 0 < |layout| && WellFormed(layout)
    requires i < |layout| && minute < layout[i].start
    requires i == 0 || layout[i - 1].end < minute
    ensures MinuteToPx(layout, top, minute) == top + layout[i].offset
  {
    ScanGap(layout, top, 0, i, minute);
  }

  lemma {:induction false} ScanPast(layout: seq<LayoutSegment>, top: real, k: nat, minute: int)
    requires 0 < |layout| && WellFormed(layout)
    requires k <= |layout| && layout[|layout| - 1].end < minute
    ensures ScanFrom(layout, top, k, minute)
            == top + layout[|layout| - 1].offset + layout[|layout| - 1].height
    decreases |layout| - k
  {
    if k < |layout| {
      assert layout[k].end <= layout[|layout| - 1].end;
      ScanPast(layout, top, k + 1, minute);
    }
  }

  /** A minute after the last segment maps to the bottom of the content. */
  lemma MinuteToPxPast(segs: seq<Interval>, top: real, minute: int)
    requires 0 < |segs| && Proper(segs) && Separated(segs)
    requires segs[|segs| - 1].end < minute
    ensures MinuteToPx(Layout(segs), top, minute) == top + ContentHeight(segs)
  {
    LayoutWellFormed(segs);
    LayoutStacks(segs);
    ScanPast(Layout(segs), top, 0, minute);
  }

  lemma {:induction false} ScanBounds(layout: seq<LayoutSegment>, top: real, k: nat, minute: int)
    requires 0 < |layout| && WellFormed(layout) && k < |layout|
    ensures top + layout[k].offset <= ScanFrom(layout, top, k, minute)
    ensures ScanFrom(layout, top, k, minute)
            <= top + layout[|layout| - 1].offset + layout[|layout| - 1].height
    decreases |layout| - k
  {
    if k + 1 < |layout| {
      ScanBounds(layout, top, k + 1, minute);
      if minute < layout[k].start {
        ScanBounds(layout, top, k + 1, layout[k + 1].start);
        assert ScanFrom(layout, top, k + 1, layout[k + 1].start) == top + layout[k + 1].offset;
      } else if minute <= layout[k].end {
        ScanBounds(layout, top, k + 1, layout[k + 1].start);
        assert ScanFrom(layout, top, k + 1, layout[k + 1].start) == top + layout[k + 1].offset;
      }
    }
  }

  lemma {:induction false} ScanMonotone(layout: seq<LayoutSegment>, top: real, k: nat, m1: int, m2: int)
    requires 0 < |layout| && WellFormed(layout) && k <= |layout| && m1 <= m2
    ensures ScanFrom(layout, top, k, m1) <= ScanFrom(layout, top, k, m2)
    decreases |layout| - k
  {
    if k < |layout| {
      if m1 < layout[k].start {
        ScanBounds(layout, top, k, m2);
      } else if m1 <= layout[k].end {
        if m2 > layout[k].end {
          if k + 1 < |layout| {
            ScanBounds(layout, top, k + 1, m2);
          }
        }
      } else {
        ScanMonotone(layout, top, k + 1, m1, m2);
      }
    }
  }

  /** Later minutes never map above earlier ones. */
  lemma MinuteToPxMonotone(layout: seq<LayoutSegment>, top: real, m1: int, m2: int)
    requires 0 < |layout| && WellFormed(layout) && m1 <= m2
    ensures MinuteToPx(layout, top, m1) <= MinuteToPx(layout, top, m2)
  {
    ScanMonotone(layout, top, 0, m1, m2);
  }

  /**
   * `Math.floor(minute / 60) % 24`: the hour of the day a marker is labelled with.
   * JavaScript's `%` keeps the dividend's sign, so a negative minute gives a non-positive hour.
   */
  function HourOf(minute: int): (h: int)
    ensures minute >= 0 ==> 0 <= h <= 23
    ensures minute < 0 ==> -23 <= h <= 0
  {
    var hours := minute / 60;
    if hours >= 0 then hours % 24 else -((-hours) % 24)
  }

  /** One marker later is one hour later on the 24-hour clock, wrapping after 23. */
  lemma HourOfNextMarker(minute: int)
    requires minute >= 0
    ensures HourOf(minute + 60) == if HourOf(minute) == 23 then 0 else HourOf(minute) + 1
  {
    assert (minute + 60) / 60 == minute / 60 + 1;
  }

  /** The minutes the marker loop visits: `start`, `start + 60`, ... up to `end`. */
  function MarkerMinutes(start: int, end: int): (r: seq<int>)
    ensures |r| == if start <= end then (end - start) / 60 + 1 else 0
    ensures forall i :: 0 <= i < |r| ==> r[i] == start + 60 * i && r[i] <= end
    decreases end - start + 60
  {
    if start > end then [] else [start] + MarkerMinutes(start + 60, end)
  }

  /** `formatTime(hour, 0).replace(":00", "")`. */
  function MarkerLabel(hour: int): string {
    Seqs.ReplaceFirst(ScheduleUtils.FormatTime(hour, 0), ":00", "")
  }

  /** Minute 0 is written `00`. */
  lemma MinutesTextZero()
    ensures ScheduleUtils.MinutesText(0) == "00"
  {
    assert NatToString(0) == "0";
  }

  /** Removing the first `:00` from digits, `:00` and a tail leaves the digits and the tail. */
  lemma DropFirstZeroMinutes(digits: string, tail: string)
    requires AllDigits(digits)
    ensures Seqs.ReplaceFirst(digits + ":00" + tail, ":00", "") == digits + tail
  {
    var text := digits + ":00" + tail;
    var n := |digits|;
    assert text[n..n + 3] == ":00";
    assert Seqs.OccursAt(text, ":00", n);
    forall j: nat | j < n
      ensures !Seqs.OccursAt(text, ":00", j)
    {
      assert text[j] == digits[j];
    }
    Seqs.FindFirstIs(text, ":00", n);
    assert text[..n] == digits;
    assert text[n + 3..] == tail;
  }

  /** `formatTime` writes the clock-face hour, a colon, the minutes text, a space and the period. */
  lemma FormatTimeShape(hour: int, minutes: int, minutesText: string)
    requires 0 <= hour <= 23 && ScheduleUtils.MinutesText(minutes) == minutesText
    ensures ScheduleUtils.FormatTime(hour, minutes)
            == NatToString(ScheduleUtils.ClockHour(hour)) + ":" + minutesText + " " + ScheduleUtils.PeriodText(hour)
  {
  }

  lemma Regroup(digits: string, minutesText: string, period: string)
    ensures digits + ":" + minutesText + " " + period == digits + (":" + minutesText) + (" " + period)
  {
  }

  /** At minute 0, `formatTime` writes the clock-face hour, `:00`, a space and the period. */
  lemma FormatTime0(hour: int)
    requires 0 <= hour <= 23
    ensures ScheduleUtils.FormatTime(hour, 0)
            == NatToString(ScheduleUtils.ClockHour(hour)) + ":00" + (" " + ScheduleUtils.PeriodText(hour))
  {
    assert ":" + "00" == ":00";
    MinutesTextZero();
    FormatTimeShape(hour, 0, "00");
    Regroup(NatToString(ScheduleUtils.ClockHour(hour)), "00", ScheduleUtils.PeriodText(hour));
  }

  /** A marker reads as the clock-face hour and the period, with no minutes. */
  lemma MarkerLabelText(hour: int)
    requires 0 <= hour <= 23
    ensures MarkerLabel(hour)
            == NatToString(ScheduleUtils.ClockHour(hour)) + (" " + ScheduleUtils.PeriodText(hour))
  {
    FormatTime0(hour);
    DropFirstZeroMinutes(NatToString(ScheduleUtils.ClockHour(hour)), " " + ScheduleUtils.PeriodText(hour));
  }

  datatype HourMarker = HourMarker(key: string, topPx: real, labelText: string)

  /** The marker of `minute` in segment `segmentIndex`: its key, its position and its label. */
  function Marker(layout: seq<LayoutSegment>, top: real, segmentIndex: nat, minute: int): HourMarker
    requires 0 < |layout|
  {
    HourMarker(IntToString(segmentIndex) + "-" + IntToString(minute),
               MinuteToPx(layout, top, minute), MarkerLabel(HourOf(minute)))
  }

  /** The markers of segment `i`: one per whole hour from its start to its end. */
  function SegmentMarkers(layout: seq<LayoutSegment>, top: real, i: nat): (r: seq<HourMarker>)
    requires i < |layout|
    ensures |r| == |MarkerMinutes(layout[i].start, layout[i].end)|
    ensures forall j :: 0 <= j < |r| ==> r[j] == Marker(layout, top, i, MarkerMinutes(layout[i].start, layout[i].end)[j])
  {
    var minutes := MarkerMinutes(layout[i].start, layout[i].end);
    seq(|minutes|, j requires 0 <= j < |minutes| => Marker(layout, top, i, minutes[j]))
  }

  /** `hourMarkers`: the markers of the first `n` segments, in order; each is one segment's. */
  function HourMarkers(layout: seq<LayoutSegment>, top: real, n: nat): (r: seq<HourMarker>)
    requires n <= |layout|
    ensures forall m :: m in r ==> exists i :: 0 <= i < n && m in SegmentMarkers(layout, top, i)
  {
    if n == 0 then [] else HourMarkers(layout, top, n - 1) + SegmentMarkers(layout, top, n - 1)
  }

  /** A segment's first marker sits at the segment's top. */
  lemma SegmentMarkersStart(layout: seq<LayoutSegment>, top: real, i: nat)
    requires 0 < |layout| && WellFormed(layout) && i < |layout|
    ensures |SegmentMarkers(layout, top, i)| > 0
    ensures SegmentMarkers(layout, top, i)[0].topPx == top + layout[i].offset
  {
    var minutes := MarkerMinutes(layout[i].start, layout[i].end);
    assert minutes[0] == layout[i].start;
    MinuteToPxInside(layout, top, i, layout[i].start);
  }

  /** Within a segment the markers are exactly 80 px, one hour, apart. */
  lemma SegmentMarkersStep(layout: seq<LayoutSegment>, top: real, i: nat)
    requires 0 < |layout| && WellFormed(layout) && i < |layout|
    ensures forall j :: 0 <= j < |SegmentMarkers(layout, top, i)| - 1 ==>
              SegmentMarkers(layout, top, i)[j + 1].topPx == SegmentMarkers(layout, top, i)[j].topPx + 80.0
  {
    var markers := SegmentMarkers(layout, top, i);
    var minutes := MarkerMinutes(layout[i].start, layout[i].end);
    forall j | 0 <= j < |markers| - 1
      ensures markers[j + 1].topPx == markers[j].topPx + 80.0
    {
      assert markers[j].topPx == MinuteToPx(layout, top, minutes[j]);
      assert markers[j + 1].topPx == MinuteToPx(layout, top, minutes[j + 1]);
      MinuteToPxInside(layout, top, i, minutes[j]);
      MinuteToPxInside(layout, top, i, minutes[j + 1]);
    }
  }

  /** The markers of the first `m` segments come first among those of the first `n`. */
  lemma {:induction false} HourMarkersPrefix(layout: seq<LayoutSegment>, top: real, m: nat, n: nat)
    requires m <= n <= |layout|
    ensures HourMarkers(layout, top, m) <= HourMarkers(layout, top, n)
    decreases n - m
  {
    if m < n {
      var prev := HourMarkers(layout, top, n - 1);
      assert HourMarkers(layout, top, m) <= prev by {
        HourMarkersPrefix(layout, top, m, n - 1);
      }
      PrefixExtends(HourMarkers(layout, top, m), prev, SegmentMarkers(layout, top, n - 1));
    }
  }

  lemma PrefixExtends<T>(a: seq<T>, b: seq<T>, c: seq<T>)
    requires a <= b
    ensures a <= b + c
  {
    assert (b + c)[..|a|] == a;
  }

  /** Segment `i`'s markers appear in `hourMarkers` as one block, right after those of earlier segments. */
  lemma HourMarkersBlock(layout: seq<LayoutSegment>, top: real, i: nat)
    requires i < |layout|
    ensures var before := |HourMarkers(layout, top, i)|;
            before + |SegmentMarkers(layout, top, i)| <= |HourMarkers(layout, top, |layout|)|
            && HourMarkers(layout, top, |layout|)[before..before + |SegmentMarkers(layout, top, i)|]
               == SegmentMarkers(layout, top, i)
  {
    var before := HourMarkers(layout, top, i);
    var block := SegmentMarkers(layout, top, i);
    var all := HourMarkers(layout, top, |layout|);
    assert before + block <= all by {
      HourMarkersPrefix(layout, top, i + 1, |layout|);
    }
    BlockOfPrefix(all, before, block);
  }

  lemma BlockOfPrefix<T>(all: seq<T>, before: seq<T>, block: seq<T>)
    requires before + block <= all
    ensures |before| + |block| <= |all| && all[|before|..|before| + |block|] == block
  {
    assert all[..|before| + |block|] == before + block;
  }

  /**
   * `Math.max(68, bottomPx - topPx)`: a class block's height, never below 68 px nor
   * below the distance between its ends on the axis.
   */
  function BlockHeight(layout: seq<LayoutSegment>, top: real, start: int, end: int): (h: real)
    requires 0 < |layout|
    ensures h >= 68.0 && h >= MinuteToPx(layout, top, end) - MinuteToPx(layout, top, start)
    ensures h == 68.0 || h == MinuteToPx(layout, top, end) - MinuteToPx(layout, top, start)
  {
    var span := MinuteToPx(layout, top, end) - MinuteToPx(layout, top, start);
    if 68.0 >= span then 68.0 else span
  }

  /**
   * A class inside one segment is drawn at its true length, 80 px per hour, but never
   * shorter than 68 px; a class that ends no earlier than it starts has a non-negative span.
   */
  lemma BlockHeightInsideSegment(layout: seq<LayoutSegment>, top: real, i: nat, start: int, end: int)
    requires 0 < |layout| && WellFormed(layout) && i < |layout|
    requires layout[i].start <= start <= end <= layout[i].end
    ensures MinuteToPx(layout, top, start) == top + layout[i].offset + (start - layout[i].start) as real * MinuteHeight
    ensures BlockHeight(layout, top, start, end)
            == if 68.0 >= (end - start) as real * MinuteHeight then 68.0 else (end - start) as real * MinuteHeight
  {
    MinuteToPxInside(layout, top, i, start);
    MinuteToPxInside(layout, top, i, end);
  }
}
