/**
 * `sortCourses` of `src/lib/course-sort.ts`: the identity for `"default"`, otherwise a
 * stable sort by one of five keys.
 */
module CourseSort {

  import opened Wrappers
  import opened Text
  import Seqs
  import Constants
  import opened StableSort
  import opened Courses
  import ScheduleUtils

  datatype SortOption = Default | NameAsc | NameDesc | ByStatus | ByDay | ByCredits

  /** `SORT_LABELS`. */
  function SortLabel(option: SortOption): string {
    match option
    case Default => "Default"
    case NameAsc => "Name (A-Z)"
    case NameDesc => "Name (Z-A)"
    case ByStatus => "Status"
    case ByDay => "Day"
    case ByCredits => "Credits"
  }

  /** Position of a status in `STATUS_OPTIONS`; -1 for a status that is not listed. */
  function StatusRank(status: string): (r: int)
    ensures -1 <= r < 4
    ensures r == -1 <==> status !in Constants.StatusOptions
    ensures r >= 0 ==> Constants.StatusOptions[r] == status
  {
    Seqs.IndexOf(Constants.StatusOptions, status)
  }

  /** `DAY_ORDER[day?.toLowerCase() ?? ""] ?? 99`: the day's order, 99 when null or unknown. */
  function DayRank(day: Option<string>): (r: int)
    ensures day.Some? && Lower(day.value) in Constants.DayOrder ==> r == Constants.DayOrder[Lower(day.value)]
    ensures (day.None? || Lower(day.value) !in Constants.DayOrder) <==> r == 99
    ensures r == 99 || 0 <= r <= 6
  {
    Constants.DayOrderRange();
    var key := if day.Some? then Lower(day.value) else "";
    if key in Constants.DayOrder then Constants.DayOrder[key] else 99
  }

  /**
   * The comparator each option hands to `sort`, on the intended day rank:
   * `localeCompare` is the difference of collation keys.
   */
  function Comparator(option: SortOption, collate: string -> real, a: Course, b: Course): real {
    match option
    case Default => 0.0
    case NameAsc => collate(a.name) - collate(b.name)
    case NameDesc => collate(b.name) - collate(a.name)
    case ByStatus => (StatusRank(a.status) - StatusRank(b.status)) as real
    case ByDay => (DayRank(a.day) - DayRank(b.day)) as real
    case ByCredits => (b.credits - a.credits) as real
  }

  /**
   * The sort key each option compares by. `localeCompare` is the abstract collation
   * key `collate`; descending orders negate the key. One course's key is at most
   * another's exactly when the option's comparator does not put the first after the second.
   */
  function KeyOf(option: SortOption, collate: string -> real): (key: Course -> SortKey)
    ensures forall a, b :: KeyLe(key(a), key(b)) <==> Comparator(option, collate, a, b) <= 0.0
  {
    match option
    case Default => (c: Course) => SortKey(0.0, 0.0)
    case NameAsc => (c: Course) => SortKey(collate(c.name), 0.0)
    case NameDesc => (c: Course) => SortKey(-collate(c.name), 0.0)
    case ByStatus => (c: Course) => SortKey(StatusRank(c.status) as real, 0.0)
    case ByDay => (c: Course) => SortKey(DayRank(c.day) as real, 0.0)
    case ByCredits => (c: Course) => SortKey(-(c.credits as real), 0.0)
  }

  /**
   * `sortCourses`: `"default"` returns its input; every other option returns a
   * permutation of it ordered by the option's key, equal keys in input order.
   */
  function SortCourses(courses: seq<Course>, option: SortOption, collate: string -> real): (r: seq<Course>)
    ensures option == Default ==> r == courses
    ensures multiset(r) == multiset(courses)
    ensures option != Default ==> SortedBy(r, KeyOf(option, collate)) && StableWrt(r, courses, KeyOf(option, collate))
  {
    if option == Default then courses
    else
      SortProperties(courses, KeyOf(option, collate));
      Sort(courses, KeyOf(option, collate))
  }

  /** Sorting by credits puts the larger credit counts first. */
  lemma CreditsNonIncreasing(courses: seq<Course>, collate: string -> real)
    ensures var r := SortCourses(courses, ByCredits, collate);
            forall i, j :: 0 <= i < j < |r| ==> r[i].credits >= r[j].credits
  {
    var r := SortCourses(courses, ByCredits, collate);
    forall i, j | 0 <= i < j < |r| ensures r[i].credits >= r[j].credits {
      assert KeyLe(KeyOf(ByCredits, collate)(r[i]), KeyOf(ByCredits, collate)(r[j]));
    }
  }

  /** Ascending names are non-decreasing under the collation; descending names non-increasing. */
  lemma NameOrders(courses: seq<Course>, collate: string -> real)
    ensures var r := SortCourses(courses, NameAsc, collate);
            forall i, j :: 0 <= i < j < |r| ==> collate(r[i].name) <= collate(r[j].name)
    ensures var r := SortCourses(courses, NameDesc, collate);
            forall i, j :: 0 <= i < j < |r| ==> collate(r[i].name) >= collate(r[j].name)
  {
    var a := SortCourses(courses, NameAsc, collate);
    forall i, j | 0 <= i < j < |a| ensures collate(a[i].name) <= collate(a[j].name) {
      assert KeyLe(KeyOf(NameAsc, collate)(a[i]), KeyOf(NameAsc, collate)(a[j]));
    }
    var d := SortCourses(courses, NameDesc, collate);
    forall i, j | 0 <= i < j < |d| ensures collate(d[i].name) >= collate(d[j].name) {
      assert KeyLe(KeyOf(NameDesc, collate)(d[i]), KeyOf(NameDesc, collate)(d[j]));
    }
  }

  /**
   * The status sort follows `STATUS_OPTIONS`; a status outside it ranks -1, so no
   * such course comes after a COMPLETED one.
   */
  lemma StatusOrder(courses: seq<Course>, collate: string -> real)
    ensures var r := SortCourses(courses, ByStatus, collate);
            forall i, j :: 0 <= i < j < |r| ==> StatusRank(r[i].status) <= StatusRank(r[j].status)
    ensures var r := SortCourses(courses, ByStatus, collate);
            forall i, j :: 0 <= i < j < |r| && r[i].status == "COMPLETED" ==> r[j].status in Constants.StatusOptions
  {
    var r := SortCourses(courses, ByStatus, collate);
    forall i, j | 0 <= i < j < |r| ensures StatusRank(r[i].status) <= StatusRank(r[j].status) {
      assert KeyLe(KeyOf(ByStatus, collate)(r[i]), KeyOf(ByStatus, collate)(r[j]));
    }
    assert StatusRank("COMPLETED") == 0;
  }

  /**
   * The day sort follows `DAY_ORDER`; a missing or unrecognised day ranks 99 and so
   * sorts after every known day, while domingo ranks 0 rather than being taken as missing.
   * This is the intended order: for a day spelling an inherited name the source's
   * comparator is `NaN` (see `DayComparisonAsWritten`).
   */
  lemma DayOrderSort(courses: seq<Course>, collate: string -> real)
    ensures var r := SortCourses(courses, ByDay, collate);
            forall i, j :: 0 <= i < j < |r| ==> DayRank(r[i].day) <= DayRank(r[j].day)
    ensures var r := SortCourses(courses, ByDay, collate);
            forall i, j :: 0 <= i < j < |r| && DayRank(r[i].day) == 99 ==> DayRank(r[j].day) == 99
  {
    var r := SortCourses(courses, ByDay, collate);
    forall i, j | 0 <= i < j < |r| ensures DayRank(r[i].day) <= DayRank(r[j].day) {
      assert KeyLe(KeyOf(ByDay, collate)(r[i]), KeyOf(ByDay, collate)(r[j]));
    }
  }

  /** Domingo's order 0 is a real order, not a missing one; a null day ranks 99. */
  lemma DayRankExamples()
    ensures DayRank(Some("Domingo")) == 0
    ensures DayRank(None) == 99
  {
    assert Lower("Domingo") == "domingo";
  }

  /** The course's day lowercases to a name `DAY_ORDER` inherits from `Object.prototype`. */
  predicate InheritedDay(c: Course) {
    c.day.Some? && Lower(c.day.value) in ScheduleUtils.InheritedKeys
  }

  /**
   * `DAY_ORDER[day?.toLowerCase() ?? ""] ?? 99` as written. `DAY_ORDER` is a plain
   * object, so an inherited name finds a value that is not nullish and `?? 99` keeps it;
   * `None` stands for that value, which is not a number.
   */
  function DayRankAsWritten(day: Option<string>): (r: Option<int>)
    ensures r.None? <==> day.Some? && Lower(day.value) in ScheduleUtils.InheritedKeys
    ensures r.Some? ==> r.value == DayRank(day)
  {
    ScheduleUtils.InheritedKeysAreNotDays();
    ScheduleUtils.DayToJsIsDayOrder();
    var key := if day.Some? then Lower(day.value) else "";
    if key in Constants.DayOrder then Some(Constants.DayOrder[key])
    else if key in ScheduleUtils.InheritedKeys then None
    else Some(99)
  }

  /**
   * The number `sort` reads from the day comparator as written: the difference of the
   * ranks, and `+0` when either rank is not a number, since a `NaN` result counts as equal.
   */
  function DayComparisonAsWritten(a: Course, b: Course): (r: int)
    ensures InheritedDay(a) || InheritedDay(b) ==> r == 0
    ensures !InheritedDay(a) && !InheritedDay(b) ==> r == DayRank(a.day) - DayRank(b.day)
  {
    var ra, rb := DayRankAsWritten(a.day), DayRankAsWritten(b.day);
    if ra.Some? && rb.Some? then ra.value - rb.value else 0
  }

  /**
   * A "Constructor" day makes the comparator as written inconsistent: that course
   * compares equal to a lunes course and to a domingo course, which do not compare equal
   * to each other. ECMAScript leaves the result of such a sort to the engine, so
   * domingo may stay after lunes.
   */
  lemma DayComparisonAsWrittenInconsistent(lunes: Course, odd: Course, domingo: Course)
    requires lunes.day == Some("lunes") && odd.day == Some("Constructor") && domingo.day == Some("domingo")
    ensures DayComparisonAsWritten(lunes, odd) == 0 && DayComparisonAsWritten(odd, domingo) == 0
    ensures DayComparisonAsWritten(domingo, lunes) < 0
  {
    assert Lower("Constructor") == "constructor";
    assert Lower("lunes") == "lunes";
    assert Lower("domingo") == "domingo";
  }

  /** The loop-based insertion sort computes the same order as `sortCourses`. */
  method SortCoursesLoop(courses: seq<Course>, option: SortOption, collate: string -> real) returns (r: seq<Course>)
    ensures r == SortCourses(courses, option, collate)
  {
    if option == Default {
      r := courses;
    } else {
      r := InsertionSort(courses, KeyOf(option, collate));
    }
  }
}
