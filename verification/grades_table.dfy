/**
 * The data logic of `src/components/grades/grades-table.tsx`: grade rows grouped by
 * course in first-appearance order, the groups ordered by semester and then course
 * name, the per-course average lookup and the fallbacks of the table cells.
 */
module GradesTable {

  import opened Wrappers
  import Seqs
  import opened StableSort
  import GradeUtils

  /** One grade as the table receives it, with its course's name, code and semester. */
  datatype GradeRow = GradeRow(
    id: string,
    courseId: string,
    courseName: string,
    courseCode: string,
    semester: int,
    labelText: string,
    value: real,
    weight: real,
    momento: Option<string>)

  /** An entry of `courseAverages`. */
  datatype CourseAverage = CourseAverage(courseId: string, courseName: string, average: Option<real>)

  /** The rows of one course, in input order. */
  datatype Group = Group(courseId: string, rows: seq<GradeRow>)

  /** The rows of `rows` whose course is `id`, in input order. */
  function RowsOf(rows: seq<GradeRow>, id: string): seq<GradeRow> {
    if |rows| == 0 then []
    else RowsOf(rows[..|rows| - 1], id) + (if rows[|rows| - 1].courseId == id then [rows[|rows| - 1]] else [])
  }

  function IdsOf(groups: seq<Group>): (ids: seq<string>)
    ensures |ids| == |groups|
    ensures forall i :: 0 <= i < |groups| ==> ids[i] == groups[i].courseId
  {
    seq(|groups|, i requires 0 <= i < |groups| => groups[i].courseId)
  }

  /**
   * The loop body of the grouping: `byCourse.get(g.courseId) || []`, push, set. A key
   * already in the map keeps its position; a new key goes last.
   */
  function AddRow(groups: seq<Group>, g: GradeRow): (r: seq<Group>)
    ensures |r| >= |groups|
  {
    var i := Seqs.IndexOf(IdsOf(groups), g.courseId);
    if i < 0 then groups + [Group(g.courseId, [g])]
    else groups[i := Group(g.courseId, groups[i].rows + [g])]
  }

  lemma {:induction false} RowsOfAbsent(rows: seq<GradeRow>, id: string)
    requires forall k :: 0 <= k < |rows| ==> rows[k].courseId != id
    ensures RowsOf(rows, id) == []
  {
    if |rows| > 0 {
      RowsOfAbsent(rows[..|rows| - 1], id);
    }
  }

  /**
   * `groups` is the grouping of `rows`: each group holds exactly its course's rows in
   * input order and is non-empty, no course has two groups, and every row's course has one.
   */
  ghost predicate IsGrouping(groups: seq<Group>, rows: seq<GradeRow>) {
    && (forall i :: 0 <= i < |groups| ==> groups[i].rows == RowsOf(rows, groups[i].courseId) && |groups[i].rows| > 0)
    && (forall i, j :: 0 <= i < j < |groups| ==> groups[i].courseId != groups[j].courseId)
    && (forall k :: 0 <= k < |rows| ==> rows[k].courseId in IdsOf(groups))
  }

  lemma AddRowGroupsRows(groups: seq<Group>, rows: seq<GradeRow>, g: GradeRow)
    requires IsGrouping(groups, rows)
    ensures var r, all := AddRow(groups, g), rows + [g];
            forall i :: 0 <= i < |r| ==> r[i].rows == RowsOf(all, r[i].courseId) && |r[i].rows| > 0
  {
    var r, all := AddRow(groups, g), rows + [g];
    assert all[..|all| - 1] == rows && all[|all| - 1] == g;
    var i := Seqs.IndexOf(IdsOf(groups), g.courseId);
    if i < 0 {
      assert forall k :: 0 <= k < |rows| ==> rows[k].courseId != g.courseId;
      RowsOfAbsent(rows, g.courseId);
    }
  }

  lemma AddRowDistinct(groups: seq<Group>, rows: seq<GradeRow>, g: GradeRow)
    requires IsGrouping(groups, rows)
    ensures var r := AddRow(groups, g);
            forall i, j :: 0 <= i < j < |r| ==> r[i].courseId != r[j].courseId
  {
  }

  lemma AddRowCovers(groups: seq<Group>, rows: seq<GradeRow>, g: GradeRow)
    requires IsGrouping(groups, rows)
    ensures var r, all := AddRow(groups, g), rows + [g];
            forall k :: 0 <= k < |all| ==> all[k].courseId in IdsOf(r)
  {
    var r, all := AddRow(groups, g), rows + [g];
    var i := Seqs.IndexOf(IdsOf(groups), g.courseId);
    forall k | 0 <= k < |all| ensures all[k].courseId in IdsOf(r) {
      if k < |rows| {
        var j := Seqs.IndexOf(IdsOf(groups), rows[k].courseId);
        assert IdsOf(r)[j] == rows[k].courseId;
      } else if i < 0 {
        assert IdsOf(r)[|groups|] == g.courseId;
      } else {
        assert IdsOf(r)[i] == g.courseId;
      }
    }
  }

  function RowIds(rows: seq<GradeRow>): (ids: seq<string>)
    ensures |ids| == |rows|
    ensures forall k :: 0 <= k < |rows| ==> ids[k] == rows[k].courseId
  {
    seq(|rows|, k requires 0 <= k < |rows| => rows[k].courseId)
  }

  /** The position of the first row of course `id`, -1 when it has none. */
  function FirstIndex(rows: seq<GradeRow>, id: string): int {
    Seqs.IndexOf(RowIds(rows), id)
  }

  /** Appending a row moves no course's first row; a new course's first row is the appended one. */
  lemma FirstIndexAppend(rows: seq<GradeRow>, g: GradeRow)
    ensures RowIds(rows + [g]) == RowIds(rows) + [g.courseId]
    ensures forall id :: id in RowIds(rows) ==> FirstIndex(rows + [g], id) == FirstIndex(rows, id)
    ensures g.courseId !in RowIds(rows) ==> FirstIndex(rows + [g], g.courseId) == |rows|
  {
    assert RowIds(rows + [g]) == RowIds(rows) + [g.courseId];
    forall id | id in RowIds(rows) ensures FirstIndex(rows + [g], id) == FirstIndex(rows, id) {
      Seqs.IndexOfAppend(RowIds(rows), g.courseId, id);
    }
    Seqs.IndexOfAppend(RowIds(rows), g.courseId, g.courseId);
  }

  /** One step keeps the groups in the order their courses first appear. */
  lemma AddRowOrder(groups: seq<Group>, rows: seq<GradeRow>, g: GradeRow)
    requires forall k :: 0 <= k < |rows| ==> rows[k].courseId in IdsOf(groups)
    requires forall i :: 0 <= i < |groups| ==> groups[i].courseId in RowIds(rows)
    requires forall i, j :: 0 <= i < j < |groups| ==>
               FirstIndex(rows, groups[i].courseId) < FirstIndex(rows, groups[j].courseId)
    ensures var r, all := AddRow(groups, g), rows + [g];
            forall i :: 0 <= i < |r| ==> r[i].courseId in RowIds(all)
    ensures var r, all := AddRow(groups, g), rows + [g];
            forall i, j :: 0 <= i < j < |r| ==> FirstIndex(all, r[i].courseId) < FirstIndex(all, r[j].courseId)
  {
    FirstIndexAppend(rows, g);
    var i := Seqs.IndexOf(IdsOf(groups), g.courseId);
    if i < 0 {
      assert g.courseId !in RowIds(rows);
      AddRowOrderNew(groups, rows, g);
    } else {
      AddRowOrderKnown(groups, rows, g, i);
    }
  }

  lemma AddRowOrderNew(groups: seq<Group>, rows: seq<GradeRow>, g: GradeRow)
    requires g.courseId !in IdsOf(groups) && g.courseId !in RowIds(rows)
    requires forall i :: 0 <= i < |groups| ==> groups[i].courseId in RowIds(rows)
    requires forall i, j :: 0 <= i < j < |groups| ==>
               FirstIndex(rows, groups[i].courseId) < FirstIndex(rows, groups[j].courseId)
    requires forall id :: id in RowIds(rows) ==> FirstIndex(rows + [g], id) == FirstIndex(rows, id)
    requires FirstIndex(rows + [g], g.courseId) == |rows|
    requires RowIds(rows + [g]) == RowIds(rows) + [g.courseId]
    ensures var r, all := AddRow(groups, g), rows + [g];
            && (forall i :: 0 <= i < |r| ==> r[i].courseId in RowIds(all))
            && (forall i, j :: 0 <= i < j < |r| ==> FirstIndex(all, r[i].courseId) < FirstIndex(all, r[j].courseId))
  {
    var r := AddRow(groups, g);
    assert r == groups + [Group(g.courseId, [g])];
    forall i | 0 <= i < |groups| ensures FirstIndex(rows, groups[i].courseId) < |rows| {
      assert RowIds(rows)[Seqs.IndexOf(RowIds(rows), groups[i].courseId)] == groups[i].courseId;
    }
  }

  lemma AddRowOrderKnown(groups: seq<Group>, rows: seq<GradeRow>, g: GradeRow, i: int)
    requires i == Seqs.IndexOf(IdsOf(groups), g.courseId) && i >= 0
    requires forall i :: 0 <= i < |groups| ==> groups[i].courseId in RowIds(rows)
    requires forall i, j :: 0 <= i < j < |groups| ==>
               FirstIndex(rows, groups[i].courseId) < FirstIndex(rows, groups[j].courseId)
    requires forall id :: id in RowIds(rows) ==> FirstIndex(rows + [g], id) == FirstIndex(rows, id)
    requires RowIds(rows + [g]) == RowIds(rows) + [g.courseId]
    ensures var r, all := AddRow(groups, g), rows + [g];
            && (forall i :: 0 <= i < |r| ==> r[i].courseId in RowIds(all))
            && (forall i, j :: 0 <= i < j < |r| ==> FirstIndex(all, r[i].courseId) < FirstIndex(all, r[j].courseId))
  {
    var r := AddRow(groups, g);
    assert forall k :: 0 <= k < |r| ==> r[k].courseId == groups[k].courseId;
  }

  /**
   * `byCourse`: one group per course id in order of first appearance; each group
   * holds exactly that course's rows in input order, is non-empty, and every row's
   * course has a group.
   */
  function GroupRows(rows: seq<GradeRow>): (r: seq<Group>)
    ensures forall i :: 0 <= i < |r| ==> r[i].rows == RowsOf(rows, r[i].courseId) && |r[i].rows| > 0
    ensures forall i, j :: 0 <= i < j < |r| ==> r[i].courseId != r[j].courseId
    ensures forall k :: 0 <= k < |rows| ==> rows[k].courseId in IdsOf(r)
    ensures |rows| > 0 ==> |r| > 0
    ensures forall i :: 0 <= i < |r| ==> r[i].courseId in RowIds(rows)
    ensures forall i, j :: 0 <= i < j < |r| ==> FirstIndex(rows, r[i].courseId) < FirstIndex(rows, r[j].courseId)
  {
    if |rows| == 0 then []
    else
      var prefix, last := rows[..|rows| - 1], rows[|rows| - 1];
      assert rows == prefix + [last];
      var groups := GroupRows(prefix);
      AddRowGroupsRows(groups, prefix, last);
      AddRowDistinct(groups, prefix, last);
      AddRowCovers(groups, prefix, last);
      AddRowOrder(groups, prefix, last);
      AddRow(groups, last)
  }

  /** All rows of the groups, group after group. */
  function Flatten(groups: seq<Group>): seq<GradeRow> {
    if |groups| == 0 then [] else groups[0].rows + Flatten(groups[1..])
  }

  lemma {:induction false} FlattenAppend(groups: seq<Group>, grp: Group)
    ensures Flatten(groups + [grp]) == Flatten(groups) + grp.rows
  {
    if |groups| == 0 {
      assert Flatten([grp]) == grp.rows + Flatten([]);
    } else {
      assert (groups + [grp])[1..] == groups[1..] + [grp];
      FlattenAppend(groups[1..], grp);
    }
  }

  lemma AddRowFlatten(groups: seq<Group>, g: GradeRow)
    ensures multiset(Flatten(AddRow(groups, g))) == multiset(Flatten(groups)) + multiset{g}
  {
    var i := Seqs.IndexOf(IdsOf(groups), g.courseId);
    if i < 0 {
      FlattenAppend(groups, Group(g.courseId, [g]));
    } else {
      var grp := Group(g.courseId, groups[i].rows + [g]);
      var updated := groups[i := grp];
      FlattenSplit(groups, i);
      FlattenSplit(updated, i);
      assert updated[..i] == groups[..i] && updated[i + 1..] == groups[i + 1..];
      var a, b := Flatten(groups[..i]), Flatten(groups[i + 1..]);
      assert Flatten(updated) == a + (groups[i].rows + [g]) + b;
      assert Flatten(groups) == a + groups[i].rows + b;
    }
  }

  lemma {:induction false} FlattenSplit(groups: seq<Group>, i: nat)
    requires i < |groups|
    ensures Flatten(groups) == Flatten(groups[..i]) + groups[i].rows + Flatten(groups[i + 1..])
  {
    if i == 0 {
      assert groups[..0] == [];
    } else {
      FlattenSplit(groups[1..], i - 1);
      assert groups[1..][..i - 1] == groups[1..i];
      assert groups[1..][i - 1] == groups[i];
      assert groups[1..][i..] == groups[i + 1..];
      assert groups[..i] == [groups[0]] + groups[1..i];
      assert Flatten(groups[..i]) == groups[0].rows + Flatten(groups[1..i]) by {
        assert groups[..i][1..] == groups[1..i];
      }
    }
  }

  /** Every grade row appears in the groups exactly as often as in the input. */
  lemma {:induction false} GroupingKeepsEveryRow(rows: seq<GradeRow>)
    ensures multiset(Flatten(GroupRows(rows))) == multiset(rows)
  {
    if |rows| > 0 {
      var prefix, last := rows[..|rows| - 1], rows[|rows| - 1];
      assert rows == prefix + [last];
      GroupingKeepsEveryRow(prefix);
      AddRowFlatten(GroupRows(prefix), last);
    }
  }

  /**
   * The comparator of `courseIds`: the first row's semester, then its course name under
   * the collation key `collate` standing for `localeCompare`.
   */
  function GroupKey(collate: string -> real): Group -> SortKey {
    (grp: Group) =>
      if |grp.rows| == 0 then SortKey(0.0, 0.0)
      else SortKey(grp.rows[0].semester as real, collate(grp.rows[0].courseName))
  }

  /** `courseIds` with their groups: the grouping stably sorted by semester, then name. */
  function OrderedGroups(rows: seq<GradeRow>, collate: string -> real): (r: seq<Group>)
    ensures multiset(r) == multiset(GroupRows(rows))
    ensures SortedBy(r, GroupKey(collate))
    ensures StableWrt(r, GroupRows(rows), GroupKey(collate))
  {
    SortProperties(GroupRows(rows), GroupKey(collate));
    Sort(GroupRows(rows), GroupKey(collate))
  }

  /**
   * In the displayed order the first rows' semesters never decrease, and within one
   * semester the course names never decrease under the collation.
   */
  lemma GroupsBySemesterThenName(rows: seq<GradeRow>, collate: string -> real)
    ensures var r := OrderedGroups(rows, collate);
            forall i :: 0 <= i < |r| ==> |r[i].rows| > 0
    ensures var r := OrderedGroups(rows, collate);
            forall i, j :: 0 <= i < j < |r| ==>
              && r[i].rows[0].semester <= r[j].rows[0].semester
              && (r[i].rows[0].semester == r[j].rows[0].semester ==>
                    collate(r[i].rows[0].courseName) <= collate(r[j].rows[0].courseName))
  {
    var r := OrderedGroups(rows, collate);
    var groups := GroupRows(rows);
    forall i | 0 <= i < |r| ensures |r[i].rows| > 0 {
      assert r[i] in multiset(groups);
      var k :| 0 <= k < |groups| && groups[k] == r[i];
    }
    forall i, j | 0 <= i < j < |r|
      ensures && r[i].rows[0].semester <= r[j].rows[0].semester
              && (r[i].rows[0].semester == r[j].rows[0].semester ==>
                    collate(r[i].rows[0].courseName) <= collate(r[j].rows[0].courseName))
    {
      assert KeyLe(GroupKey(collate)(r[i]), GroupKey(collate)(r[j]));
    }
  }

  /** What the table shows: the empty-state message, or the ordered groups. */
  datatype View = EmptyState | Groups(groups: seq<Group>)

  /** `GradesTable`: the empty state exactly when there are no rows, otherwise every row once. */
  function Render(rows: seq<GradeRow>, collate: string -> real): (v: View)
    ensures v.EmptyState? <==> |rows| == 0
    ensures v.Groups? ==> |v.groups| > 0 && multiset(Flatten(v.groups)) == multiset(rows)
  {
    if |rows| == 0 then EmptyState
    else
      var r := OrderedGroups(rows, collate);
      GroupingKeepsEveryRow(rows);
      FlattenPermutation(r, GroupRows(rows));
      Groups(r)
  }

  /** Reordering the groups does not change which rows they hold. */
  lemma {:induction false} FlattenPermutation(a: seq<Group>, b: seq<Group>)
    requires multiset(a) == multiset(b)
    ensures multiset(Flatten(a)) == multiset(Flatten(b))
    decreases |a|
  {
    if |a| > 0 {
      assert a[0] in multiset(b);
      var k :| 0 <= k < |b| && b[k] == a[0];
      var rest := b[..k] + b[k + 1..];
      Seqs.RemoveMatched(a, b, k);
      FlattenPermutation(a[1..], rest);
      FlattenSplit(b, k);
      FlattenConcat(b[..k], b[k + 1..]);
    }
  }



  lemma {:induction false} FlattenConcat(a: seq<Group>, b: seq<Group>)
    ensures Flatten(a + b) == Flatten(a) + Flatten(b)
  {
    if |a| > 0 {
      assert (a + b)[1..] == a[1..] + b;
      FlattenConcat(a[1..], b);
    } else {
      assert a + b == b;
    }
  }

  /**
   * `courseAvgMap.get(courseId) ?? null`: the map is built from the entries in order,
   * so the last entry for the course wins; a course without an entry has no average.
   */
  function LookupAverage(averages: seq<CourseAverage>, id: string): (r: Option<real>)
    ensures (forall k :: 0 <= k < |averages| ==> averages[k].courseId != id) ==> r.None?
    ensures forall k :: 0 <= k < |averages| && averages[k].courseId == id
                        && (forall j :: k < j < |averages| ==> averages[j].courseId != id)
                        ==> r == averages[k].average
  {
    if |averages| == 0 then None
    else
      var n := |averages| - 1;
      if averages[n].courseId == id then averages[n].average
      else
        var r := LookupAverage(averages[..n], id);
        assert forall k :: 0 <= k < n ==> averages[..n][k] == averages[k];
        r
  }

  /** A table cell: the dash placeholder, a weight percentage, text, or a coloured average. */
  datatype Cell = Dash | Percent(weight: real) | Text(text: string) | Average(value: real, band: GradeUtils.Band)

  /** Weight cell: `${weight}%` for a positive weight, otherwise "-". */
  function WeightCell(weight: real): (c: Cell)
    ensures c == Dash <==> weight <= 0.0
    ensures c != Dash ==> c == Percent(weight)
  {
    if weight > 0.0 then Percent(weight) else Dash
  }

  /** Momento cell: `momento || "-"`, so a missing or empty momento shows "-". */
  function MomentoCell(momento: Option<string>): (c: Cell)
    ensures c == Dash <==> momento.None? || momento.value == ""
    ensures c != Dash ==> c == Text(momento.value)
  {
    if momento.Some? && momento.value != "" then Text(momento.value) else Dash
  }

  /** Average cell: the average with its colour band, or "-" when it is `null`. */
  function AverageCell(avg: Option<real>): (c: Cell)
    ensures c == Dash <==> avg.None?
    ensures avg.Some? ==> c == Average(avg.value, GradeUtils.GradeColor(avg.value))
  {
    if avg.Some? then Average(avg.value, GradeUtils.GradeColor(avg.value)) else Dash
  }

  /**
   * A course's average row shows "-" exactly when no entry names the course or its
   * last entry carries `null`.
   */
  lemma AverageRowFallback(averages: seq<CourseAverage>, id: string)
    ensures AverageCell(LookupAverage(averages, id)) == Dash
            <==> (forall k :: 0 <= k < |averages| ==> averages[k].courseId != id)
                 || (exists k :: 0 <= k < |averages| && averages[k].courseId == id && averages[k].average.None?
                                 && forall j :: k < j < |averages| ==> averages[j].courseId != id)
  {
    if exists k :: 0 <= k < |averages| && averages[k].courseId == id {
      var k := LastIndexOf(averages, id);
      assert averages[k].courseId == id && forall j :: k < j < |averages| ==> averages[j].courseId != id;
    }
  }

  /** The position of the last entry naming `id`, given that one exists. */
  function LastIndexOf(averages: seq<CourseAverage>, id: string): (k: nat)
    requires exists k :: 0 <= k < |averages| && averages[k].courseId == id
    ensures k < |averages| && averages[k].courseId == id
    ensures forall j :: k < j < |averages| ==> averages[j].courseId != id
  {
    var n := |averages| - 1;
    if averages[n].courseId == id then n
    else
      assert exists k :: 0 <= k < n && averages[..n][k].courseId == id by {
        var k :| 0 <= k < |averages| && averages[k].courseId == id;
        assert averages[..n][k] == averages[k];
      }
      var k := LastIndexOf(averages[..n], id);
      assert averages[..n][k] == averages[k];
      k
  }
}
