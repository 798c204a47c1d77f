/**
 * The listing logic of `src/components/courses/courses-grid.tsx`: the ascending list of
 * distinct semesters, the three-part filter, the expand/collapse toggle and the
 * previous/next semester buttons. The React state that holds each value is left out;
 * every handler is a function from the old state to the new one.
 */
module CoursesGrid {

  import opened Wrappers
  import opened Text
  import Seqs
  import opened Courses

  predicate StrictlyIncreasing(s: seq<int>) {
    forall i, j :: 0 <= i < j < |s| ==> s[i] < s[j]
  }

  /** The semesters the courses belong to, as a set. */
  ghost function SemesterSet(courses: seq<Course>): set<int> {
    set c | c in courses :: c.semester
  }

  /** Adds `x` to an ascending list of distinct numbers, keeping it ascending and distinct. */
  function InsertUnique(s: seq<int>, x: int): (r: seq<int>)
    requires StrictlyIncreasing(s)
    ensures StrictlyIncreasing(r)
    ensures forall y :: y in r <==> y in s || y == x
  {
    if |s| == 0 then [x]
    else if x < s[0] then [x] + s
    else if x == s[0] then s
    else
      var rest := InsertUnique(s[1..], x);
      assert forall y :: y in s <==> y == s[0] || y in s[1..];
      assert forall i :: 0 <= i < |rest| ==> s[0] < rest[i] by {
        forall i | 0 <= i < |rest| ensures s[0] < rest[i] {
          assert rest[i] in rest;
        }
      }
      [s[0]] + rest
  }

  /**
   * `semesters`: `Array.from(new Set(courses.map(c => c.semester))).sort((a, b) => a - b)`,
   * the distinct semesters in ascending order.
   */
  function Semesters(courses: seq<Course>): (r: seq<int>)
    ensures StrictlyIncreasing(r)
    ensures forall x :: x in r <==> x in SemesterSet(courses)
  {
    if |courses| == 0 then []
    else
      var rest := Semesters(courses[1..]);
      assert forall c :: c in courses <==> c == courses[0] || c in courses[1..];
      assert SemesterSet(courses) == SemesterSet(courses[1..]) + {courses[0].semester};
      InsertUnique(rest, courses[0].semester)
  }

  /**
   * The search test: the query is empty, or the lowercased query occurs as a block of
   * the lowercased name or of the lowercased code.
   */
  predicate MatchesQuery(c: Course, query: string): (hit: bool)
    ensures query == [] ==> hit
    ensures hit <==> query == []
                     || (exists i: nat :: Seqs.OccursAt(Lower(c.name), Lower(query), i))
                     || (exists i: nat :: Seqs.OccursAt(Lower(c.code), Lower(query), i))
  {
    query == [] || Seqs.Includes(Lower(c.name), Lower(query)) || Seqs.Includes(Lower(c.code), Lower(query))
  }

  /** The predicate of `filteredCourses`: semester, status and search filters, each optional. */
  predicate Keep(c: Course, semester: Option<int>, status: Option<string>, query: string) {
    && (semester.None? || c.semester == semester.value)
    && (status.None? || c.status == status.value)
    && MatchesQuery(c, query)
  }

  /**
   * `filteredCourses`: the courses the three filters keep, in their original order,
   * each as often as it occurs.
   */
  function FilterCourses(courses: seq<Course>, semester: Option<int>, status: Option<string>, query: string)
    : (r: seq<Course>)
    ensures Seqs.IsSubsequence(r, courses)
    ensures forall c :: c in r <==> c in courses && Keep(c, semester, status, query)
    ensures forall c :: multiset(r)[c] == if Keep(c, semester, status, query) then multiset(courses)[c] else 0
  {
    var keep := (c: Course) => Keep(c, semester, status, query);
    var r := Seqs.Filter(courses, keep);
    forall c ensures multiset(r)[c] == if keep(c) then multiset(courses)[c] else 0 {
      Seqs.FilterCount(courses, keep, c);
    }
    r
  }

  /** With no semester, no status and an empty query every course is kept. */
  lemma NoFiltersKeepAll(courses: seq<Course>)
    ensures FilterCourses(courses, None, None, "") == courses
  {
    Seqs.FilterAll(courses, (c: Course) => Keep(c, None, None, ""));
  }

  /** `handleToggle`: removes the id from the expanded set if present, adds it otherwise. */
  function Toggle(expanded: set<string>, id: string): (r: set<string>)
    ensures id in r <==> id !in expanded
    ensures forall x :: x != id ==> (x in r <==> x in expanded)
  {
    if id in expanded then expanded - {id} else expanded + {id}
  }

  /** Toggling the same id twice restores the set. */
  lemma ToggleTwice(expanded: set<string>, id: string)
    ensures Toggle(Toggle(expanded, id), id) == expanded
  {
  }

  /**
   * `currentSemesterIndex`: the position of the selected semester, or -1 when none is
   * selected. The source tests the selection for truthiness, so semester 0 also gives -1.
   */
  function CurrentIndex(semesters: seq<int>, selected: Option<int>): (r: int)
    ensures -1 <= r < |semesters|
    ensures r >= 0 ==> selected.Some? && semesters[r] == selected.value
    ensures r == -1 <==> selected.None? || selected.value == 0 || selected.value !in semesters
  {
    if selected.None? || selected.value == 0 then -1 else Seqs.IndexOf(semesters, selected.value)
  }

  /** `goToPrevSemester`: the semester before the selected one, or no change at the first. */
  function GoPrev(semesters: seq<int>, selected: Option<int>): (r: Option<int>)
    requires StrictlyIncreasing(semesters)
    ensures r == selected || (r.Some? && r.value in semesters)
    ensures r != selected <==> CurrentIndex(semesters, selected) > 0
    ensures r != selected ==> r.value < selected.value
                              && forall x :: x in semesters && r.value < x ==> selected.value <= x
  {
    var i := CurrentIndex(semesters, selected);
    if i > 0 then
      var r := Some(semesters[i - 1]);
      assert r.value < selected.value;
      assert forall x :: x in semesters && r.value < x ==> selected.value <= x by {
        forall x | x in semesters && r.value < x ensures selected.value <= x {
          var k := Seqs.IndexOf(semesters, x);
          assert k > i - 1;
        }
      }
      r
    else selected
  }

  /**
   * `goToNextSemester`: the semester after the selected one; with nothing selected, the
   * first semester; no change at the last.
   */
  function GoNext(semesters: seq<int>, selected: Option<int>): (r: Option<int>)
    requires StrictlyIncreasing(semesters)
    ensures r == selected || (r.Some? && r.value in semesters)
    ensures CurrentIndex(semesters, selected) == |semesters| - 1 ==> r == selected
    ensures 0 <= CurrentIndex(semesters, selected) < |semesters| - 1 ==>
              r.Some? && selected.value < r.value && forall x :: x in semesters && x < r.value ==> x <= selected.value
    ensures CurrentIndex(semesters, selected) == -1 && |semesters| > 0 ==>
              r.Some? && forall x :: x in semesters ==> r.value <= x
  {
    var i := CurrentIndex(semesters, selected);
    if i < |semesters| - 1 then
      var r := Some(semesters[i + 1]);
      if i >= 0 then
        assert forall x :: x in semesters && x < r.value ==> x <= selected.value by {
          forall x | x in semesters && x < r.value ensures x <= selected.value {
            var k := Seqs.IndexOf(semesters, x);
            assert k < i + 1;
          }
        }
        r
      else
        assert forall x :: x in semesters ==> r.value <= x by {
          forall x | x in semesters ensures r.value <= x {
            var k := Seqs.IndexOf(semesters, x);
            assert k >= 0;
          }
        }
        r
    else selected
  }
}
