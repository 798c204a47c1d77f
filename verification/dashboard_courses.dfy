/**
 * The course panel of `src/components/dashboard/dashboard-courses.tsx`: one semester at
 * a time, chosen by a clamped index into the semester list, narrowed by the search
 * query and ordered by the chosen sort. It shares the semester list, the query test and
 * the toggle with the courses grid.
 */
module DashboardCourses {

  import opened Wrappers
  import Seqs
  import opened Courses
  import CoursesGrid
  import CourseSort
  import opened StableSort

  /** `semesters[currentSemesterIndex]`, which is `undefined` outside the list. */
  function CurrentSemester(semesters: seq<int>, index: int): (r: Option<int>)
    ensures r.Some? <==> 0 <= index < |semesters|
    ensures r.Some? ==> r.value in semesters
  {
    if 0 <= index < |semesters| then Some(semesters[index]) else None
  }

  /** `c.semester === currentSemester`: never true when the index is outside the list. */
  predicate InSemester(c: Course, current: Option<int>) {
    current.Some? && c.semester == current.value
  }

  predicate SearchHit(c: Course, query: string) {
    CoursesGrid.MatchesQuery(c, query)
  }

  /**
   * `filteredCourses` as written: the semester filter, then the search filter when the
   * query is set. The two passes keep, in order, exactly the current-semester courses
   * that match the query: one pass with the conjunction gives the same list.
   */
  function FilterCourses(courses: seq<Course>, current: Option<int>, query: string): (r: seq<Course>)
    ensures r == Seqs.Filter(courses, (c: Course) => InSemester(c, current) && SearchHit(c, query))
  {
    var p := (c: Course) => InSemester(c, current);
    var q := (c: Course) => SearchHit(c, query);
    var pq := (c: Course) => InSemester(c, current) && SearchHit(c, query);
    var bySemester := Seqs.Filter(courses, p);
    if query == [] then
      FilterAllHit(courses, p, pq);
      bySemester
    else
      Seqs.FilterFilter(courses, p, q, pq);
      Seqs.Filter(bySemester, q)
  }

  /** With an empty query the conjunction is the semester test alone. */
  lemma FilterAllHit(courses: seq<Course>, p: Course -> bool, pq: Course -> bool)
    requires forall c :: pq(c) == p(c)
    ensures Seqs.Filter(courses, pq) == Seqs.Filter(courses, p)
  {
    Seqs.FilterFilter(courses, p, (c: Course) => true, pq);
    Seqs.FilterAll(Seqs.Filter(courses, p), (c: Course) => true);
  }

  /** Membership in the filtered list: in the current semester and matching the query. */
  lemma FilterMembership(courses: seq<Course>, current: Option<int>, query: string, c: Course)
    ensures c in FilterCourses(courses, current, query)
            <==> c in courses && InSemester(c, current) && CoursesGrid.MatchesQuery(c, query)
    ensures Seqs.IsSubsequence(FilterCourses(courses, current, query), courses)
  {
  }

  /** The previous-semester button: `Math.max(0, i - 1)`. */
  function StepPrev(index: int): (r: int)
    ensures r >= 0
    ensures index >= 1 ==> r == index - 1
    ensures index <= 0 ==> r == 0
  {
    if index - 1 > 0 then index - 1 else 0
  }

  /** The next-semester button: `Math.min(semesters.length - 1, i + 1)`. */
  function StepNext(index: int, count: nat): (r: int)
    ensures r <= count - 1
    ensures index + 1 <= count - 1 ==> r == index + 1
    ensures index + 1 > count - 1 ==> r == count - 1
  {
    if count - 1 < index + 1 then count - 1 else index + 1
  }

  /**
   * With at least one semester, both buttons keep an index that starts inside the list
   * inside it, so the current semester is always defined.
   */
  lemma StepsStayInRange(semesters: seq<int>, index: int)
    requires |semesters| >= 1 && 0 <= index < |semesters|
    ensures 0 <= StepPrev(index) < |semesters|
    ensures 0 <= StepNext(index, |semesters|) < |semesters|
    ensures CurrentSemester(semesters, StepPrev(index)).Some?
    ensures CurrentSemester(semesters, StepNext(index, |semesters|)).Some?
  {
  }

  /**
   * `sortedCourses`: the filtered list itself for "default"; otherwise its courses
   * ordered by the option's key, equal keys in filtered order.
   */
  function Displayed(courses: seq<Course>, semesters: seq<int>, index: int, query: string,
                     option: CourseSort.SortOption, collate: string -> real): (r: seq<Course>)
    ensures option == CourseSort.Default ==> r == FilterCourses(courses, CurrentSemester(semesters, index), query)
    ensures option != CourseSort.Default ==>
              && SortedBy(r, CourseSort.KeyOf(option, collate))
              && StableWrt(r, FilterCourses(courses, CurrentSemester(semesters, index), query), CourseSort.KeyOf(option, collate))
    ensures multiset(r) == multiset(FilterCourses(courses, CurrentSemester(semesters, index), query))
    ensures forall c :: c in r <==>
              c in courses && InSemester(c, CurrentSemester(semesters, index)) && CoursesGrid.MatchesQuery(c, query)
  {
    var filtered := FilterCourses(courses, CurrentSemester(semesters, index), query);
    forall c ensures c in filtered <==>
        c in courses && InSemester(c, CurrentSemester(semesters, index)) && CoursesGrid.MatchesQuery(c, query) {
      FilterMembership(courses, CurrentSemester(semesters, index), query, c);
    }
    var r := CourseSort.SortCourses(filtered, option, collate);
    assert forall c :: c in r <==> c in multiset(r);
    assert forall c :: c in filtered <==> c in multiset(filtered);
    r
  }
}
