# Study-planner core in Dafny

A model of the pure logic in a Next.js study-planner. The planner tracks university
courses, their grades and their weekly class schedule. The model covers four groups.

- **Grade aggregation and input bounds.** `grade_utils.dfy` covers the per-course
  weighted average and the credit-weighted GPA. Both are rounded to cents. It also
  covers the colour bands and the pass predicate. `validations.dfy` restates the zod
  input schemas as acceptance predicates.
- **Time and day utilities.** `schedule_utils.dfy` covers:
  - `parseTime`, as the leftmost regex match over the text;
  - `formatTime`;
  - `normalizeDay`;
  - the `DAY_TO_JS` table;
  - the weekday offset of `getNextClassDate`.

  `constants.dfy` holds the status, day-order, day-label and colour tables.
- **Course ordering, filtering and grouping.**
  - `stable_sort.dfy` is a generic stable insertion sort on lexicographic keys.
  - `course_sort.dfy` gives the six sort options of `sortCourses`.
  - `courses_grid.dfy` and `dashboard_courses.dfy` hold the filters, the semester
    list, the semester navigation and the expand/collapse toggle. The dashboard
    reuses the grid's semester list, toggle and search predicate.
  - `grades_table.dfy` covers the grouping and ordering of grade rows and the table
    cells.
- **The compressed weekly grid.**
  - `week_grid.dfy` covers the day columns, the momento tabs and the placing of
    classes. It also covers the desktop schedule as a whole.
  - `week_layout.dfy` holds the interval algorithm. It rounds classes out to whole
    hours, then sorts and merges them. It stacks the segments with a 26 px gap and
    centres them in a grid of at least 280 px. Finally it maps minutes to pixels,
    places the hour markers and sizes the class blocks.

Numbers are exact `real`s, and `Math.round(x)` is `Floor(x + 1/2)`. `localeCompare` is
an abstract collation key `collate: string -> real`, so every sort is a key sort on a
total preorder. Lowercasing and NFD decomposition follow a finite table of Latin-1
letters. Today's weekday and the parsed time range of a course are parameters.

Helper modules:
- `wrappers.dfy` holds `Option`.
- `text.dfy` covers `trim`, `toLowerCase`, digits and decimal text, and `padStart`.
- `seqs.dfy` covers `filter`, `indexOf`, `includes` and string `replace`.

`parseTime` is its own regular-expression scan of the text; it does not call
`parseTimeRange`.

## Model

| member | source | states |
|---|---|---|
| Text.TrimStart | src/lib/schedule-utils.ts:2 | the result is a suffix of the input, everything dropped is whitespace, and the result does not start with whitespace |
| Text.TrimEnd | src/lib/schedule-utils.ts:2 | the result is a prefix of the input, everything dropped is whitespace, and the result does not end with whitespace |
| Text.TrimOfTrimmed | src/lib/schedule-utils.ts:22 | text that neither starts nor ends with whitespace is unchanged by `trim` |
| Text.Lower | src/lib/schedule-utils.ts:21 | lowercasing keeps the length and maps each character on its own |
| Text.LowerIsLowercase | src/lib/schedule-utils.ts:21 | lowercased text is lowercase, and lowercasing twice is lowercasing once |
| Text.DecimalValueLeadingZero | src/lib/schedule-utils.ts:5-6 | `parseInt` ignores a leading zero, so "08" reads as 8 |
| Text.NatToString | src/lib/schedule-utils.ts:16 | a number's decimal text is a non-empty run of digits that reads back as the number; it is one digit exactly below 10 |
| Text.IntToString | src/components/schedule/week-grid.tsx:365 | a non-negative number is written as its digits; a negative one as a minus sign followed by the digits of its magnitude |
| Text.PadStart | src/lib/schedule-utils.ts:16 | the result is as long as the width or the text, whichever is longer; it ends with the text and is filled on the left |
| Seqs.IndexOf | src/components/courses/courses-grid.tsx:65-67 | -1 exactly when the element is absent; otherwise the first position that holds it |
| Seqs.Filter | src/components/courses/courses-grid.tsx:33-50 | the result is an order-preserving subsequence holding exactly the elements that pass |
| Seqs.FilterCount | src/components/courses/courses-grid.tsx:33-50 | an element that passes is kept as often as it occurs, and one that fails not at all |
| Seqs.FilterAll | src/components/courses/courses-grid.tsx:33-50 | a predicate every element passes keeps the whole sequence |
| Seqs.FilterFull | src/components/schedule/week-grid.tsx:540 | a filter keeps its input's length exactly when every element passes |
| Seqs.FilterFilter | src/components/dashboard/dashboard-courses.tsx:52-65 | two filter passes equal one pass by the conjunction |
| Seqs.Includes | src/components/courses/courses-grid.tsx:42-43 | `includes` holds exactly when the needle occurs at some position |
| Seqs.FindFrom | src/components/schedule/week-grid.tsx:367 | the first occurrence at or after the start position, or -1 when there is none |
| Seqs.FindFirstIs | src/components/schedule/week-grid.tsx:367 | an occurrence with none before it is the one found |
| Seqs.FindFirstAgreesWithIncludes | src/components/schedule/week-grid.tsx:367 | the search finds an occurrence exactly when `includes` holds |
| StableSort.SortProperties | src/lib/course-sort.ts:33-59 | the sort returns a permutation of its input, ordered by key, with equal keys in input order, as `Array.prototype.sort` does |
| StableSort.InsertionSort | src/lib/course-sort.ts:33-59 | the loop computes the functional sort, so it too is a stable ordered permutation |
| Constants.StatusFromKey | src/lib/constants.ts:1-32 | the inverse of the status key: it gives the status with that key, and nothing for any other text |
| Constants.StatusKeyRoundTrip | src/lib/constants.ts:1-32 | looking up a status's key gives back the status |
| Constants.StatusOptionsAreTheKeys | src/lib/constants.ts:34 | `STATUS_OPTIONS` lists each of the four status keys exactly once and nothing else |
| Constants.AccentedDaysAgree | src/lib/constants.ts:36-58 | miércoles/miercoles share order 3 and sábado/sabado share order 6; each pair also shares its label |
| Constants.DayKeyCount | src/lib/constants.ts:36-46 | the nine day keys are distinct |
| Constants.CanonicalDayOrders | src/lib/constants.ts:36-46 | the seven unaccented days take the distinct orders 0..6, domingo first |
| Constants.DayTableKeys | src/lib/constants.ts:36-58 | `DAY_ORDER` and `DAY_LABELS` are defined on exactly the same nine keys |
| Constants.DayOrderRange | src/lib/constants.ts:36-46 | every day order is a JavaScript weekday number 0..6 |
| Constants.DayTablesConsistent | src/lib/constants.ts:36-58 | canonical orders 0..6, the same nine keys in both tables, every order in 0..6 |
| Constants.ColorAt | src/lib/constants.ts:60-71 | the palette has ten entries, and any index modulo ten picks one of them |
| GradeUtils.RoundToCents | src/lib/grade-utils.ts:11 | the result is a whole number of cents, within half a cent of the input (half-up) |
| GradeUtils.RoundToCentsMonotone | src/lib/grade-utils.ts:11 | rounding to cents never reverses the order of two values |
| GradeUtils.RoundToCentsBounds | src/lib/grade-utils.ts:8 | a value between two whole-cent bounds rounds to a value between them |
| GradeUtils.WeightedAverage | src/lib/grade-utils.ts:1-12 | null exactly for no grades; the rounded plain mean when the weights sum to 0; otherwise the rounded weight-proportional mean |
| GradeUtils.SumBounds | src/lib/grade-utils.ts:5-10 | with values in [0, 5] and weights ≥ 0, the value sum is at most 5 per grade and the weighted sum at most 5 times the weight sum |
| GradeUtils.WeightedAverageInScale | src/lib/grade-utils.ts:1-12 | with values in [0, 5] and weights ≥ 0, the average lies in [0, 5] |
| GradeUtils.Graded | src/lib/grade-utils.ts:17 | the `filter(c => c.average !== null)` pass, defined as `Seqs.Filter`: an in-order subsequence of the input holding exactly the courses with an average, each as often as it occurs (`Seqs.FilterCount`) |
| GradeUtils.Gpa | src/lib/grade-utils.ts:14-25 | null exactly when no course has an average; otherwise the rounded credit-weighted mean over the graded courses, with a positive credit sum |
| GradeUtils.GpaIgnoresUngraded | src/lib/grade-utils.ts:17 | adding a course without an average leaves the GPA unchanged |
| GradeUtils.GradedAppendUngraded | src/lib/grade-utils.ts:17 | a course without an average is dropped by the graded filter |
| GradeUtils.SumCreditWeightedBounds | src/lib/grade-utils.ts:19-23 | averages in [0, 5] give a credit-weighted sum between 0 and 5 times the credits |
| GradeUtils.GpaInScale | src/lib/grade-utils.ts:14-25 | with every average in [0, 5], the GPA lies in [0, 5] |
| GradeUtils.GradeColor | src/lib/grade-utils.ts:27-33 | the band is one step better for each of the thresholds 2.0, 3.0, 4.0 and 4.5 the value reaches |
| GradeUtils.IsPassing | src/lib/grade-utils.ts:35-37 | a value passes exactly when its colour band is emerald, green or blue |
| GradeUtils.GradeColorMonotone | src/lib/grade-utils.ts:27-33 | a higher value never gets a worse colour band |
| GradeUtils.AggregationExamples | src/lib/grade-utils.ts:1-25 | worked cases: no grades give null; zero weights give the plain mean 3.0; 70/30 weights give 4.4; 3.9166… rounds to 3.92; an ungraded course is ignored by the GPA |
| Validations.JsLength | src/lib/validations.ts:12 | a string's UTF-16 length is its code-point count plus its number of astral code points, so it lies between the count and twice it, and equals the count exactly when no code point is astral |
| Validations.StatusSchemaMatchesStatusOptions | src/lib/validations.ts:3 | the status enum accepts exactly the keys in `STATUS_OPTIONS`, which are exactly the texts that name a status |
| Validations.GradeBoundsInclusive | src/lib/validations.ts:10-16 | value 0 and 5 and weight 0 and 100 are accepted; 5.01, -0.1 and weight 100.5 are refused |
| Validations.LabelLengthCountsCodeUnits | src/lib/validations.ts:12 | an emoji counts as two characters toward the label's length |
| Validations.EmptyGradePatchAccepted | src/lib/validations.ts:18-26 | a grade update with an empty data object is accepted |
| Validations.PinnedPatchAccepted | src/lib/validations.ts:34-41 | a note update may set `pinned` either way on its own |
| Validations.GradeUpdateMatchesCreation | src/lib/validations.ts:10-26 | an update's fields, when present, obey the same bounds as a new grade's |
| Validations.NoteUpdateMatchesCreation | src/lib/validations.ts:28-41 | an update's title and content, when present, obey the same bounds as a new note's |
| Validations.NoteContentMayBeEmpty | src/lib/validations.ts:28-32 | a new note may have empty content but not an empty title |
| Validations.UpdatePreservesGradeBounds | src/lib/validations.ts:10-26 | an accepted update applied to an accepted grade gives a grade the creation schema accepts |
| Validations.AcceptedGradesAverageInScale | src/lib/validations.ts:13-14 | grades the schema accepts average to a value in [0, 5] |
| ScheduleUtils.DigitRunEnd | src/lib/schedule-utils.ts:3 | `\d+` runs to the first non-digit, and everything before it is a digit |
| ScheduleUtils.SpaceRunEnd | src/lib/schedule-utils.ts:3 | `\s*` runs to the first non-space, and everything before it is a space |
| ScheduleUtils.MatchAt | src/lib/schedule-utils.ts:3 | a match at a position is two non-empty digit runs around a colon |
| Seqs.FirstHit | src/lib/schedule-utils.ts:3 | the first index at or after the start where the condition holds, or the end when it holds nowhere before it |
| ScheduleUtils.FirstMatch | src/lib/schedule-utils.ts:3 | a match found lies at or after the start position and is the match at its position |
| ScheduleUtils.FirstMatchLeftmost | src/lib/schedule-utils.ts:3 | the match found is the leftmost one, and nothing is found only when the pattern matches at no position |
| ScheduleUtils.ReplaceNbsp | src/lib/schedule-utils.ts:2 | every no-break space becomes a space, and nothing else changes |
| ScheduleUtils.To24Hour | src/lib/schedule-utils.ts:7-9 | a clock hour 1..12 becomes 0..23, at least 12 exactly for PM; a larger hour gains 12 with PM and is kept with AM |
| ScheduleUtils.ParseTime | src/lib/schedule-utils.ts:1-11 | with no time anywhere in the cleaned text, the result is 18:30; otherwise the result is the leftmost time of the cleaned text, wherever it starts (after a day name or other leading words) |
| ScheduleUtils.FirstMatchIsLeftmostHit | src/lib/schedule-utils.ts:3 | a position where the pattern matches with no match before it is the match `match` returns |
| ScheduleUtils.ParseTimeLeftmost | src/lib/schedule-utils.ts:1-11 | clean text reads as its leftmost time, at any position |
| ScheduleUtils.ParseTimeAfterDayName | src/lib/schedule-utils.ts:1-11 | "Lunes 6:30 pm" reads as 18:30: the leading day name is skipped |
| ScheduleUtils.ParseTimeEmpty | src/lib/schedule-utils.ts:4 | empty text falls back to 18:30 |
| ScheduleUtils.ParseTimeAtStart | src/lib/schedule-utils.ts:2-10 | clean text that starts with a time reads as that time |
| ScheduleUtils.ParseTimeRangeText | src/lib/schedule-utils.ts:1-11 | "6:30 p.m. - 8:30 p.m." reads as 18:30: the first time wins and the dotted marker is accepted |
| ScheduleUtils.MarkerSpellings | src/lib/schedule-utils.ts:3 | the marker ignores case and allows a dot and spaces between its letters; "a .m" and "hm" are not markers |
| ScheduleUtils.ClockHour | src/lib/schedule-utils.ts:15 | a 24-hour hour shows as 1..12 on the clock face |
| ScheduleUtils.MinutesTextTwoDigits | src/lib/schedule-utils.ts:16 | minutes 0..59 are written as exactly two digits that read back as the minutes |
| ScheduleUtils.FormatTimeFields | src/lib/schedule-utils.ts:13-17 | for a valid time: the hour is 1..12, followed by a colon, two minute digits, a space, and PM exactly when the hour is 12 or later |
| ScheduleUtils.FormatTime | src/lib/schedule-utils.ts:13-17 | `formatTime` is the week grid's `formatClockTime` text, a space and the period, and ends in PM exactly for hours 12 and later |
| ScheduleUtils.To24HourUndoesClockHour | src/lib/schedule-utils.ts:8-15 | reading a clock-face hour back with its period gives the 24-hour hour |
| ScheduleUtils.MatchOfFormattedShape | src/lib/schedule-utils.ts:2-3 | text shaped `<digits>:<2 digits> AM/PM` survives cleaning and matches at position 0 with that period |
| ScheduleUtils.ParseFormatRoundTrip | src/lib/schedule-utils.ts:1-17 | for 0 ≤ h ≤ 23 and 0 ≤ m ≤ 59, `parseTime(formatTime(h, m))` is {h, m} |
| ScheduleUtils.DecompositionsWellFormed | src/lib/schedule-utils.ts:23 | each modelled decomposition is a lowercase letter followed by a combining mark |
| ScheduleUtils.StripMarks | src/lib/schedule-utils.ts:24 | the characters that are not combining marks, in order and each as often as it occurs |
| ScheduleUtils.NfdKeepsLowercase | src/lib/schedule-utils.ts:21-23 | decomposing lowercase text leaves it lowercase |
| ScheduleUtils.NormalizeDay | src/lib/schedule-utils.ts:19-25 | a normalized day is lowercase and holds no code point in U+0300–U+036F |
| ScheduleUtils.NormalizeDayExample | src/lib/schedule-utils.ts:19-25 | "Miércoles " normalizes to "miercoles" |
| ScheduleUtils.NormalizeDayFixesPlainWords | src/lib/schedule-utils.ts:19-25 | a word of unaccented lowercase letters is its own normal form |
| ScheduleUtils.NormalizeOneAccent | src/lib/schedule-utils.ts:19-25 | a lowercase word with one acute letter normalizes to the word with the base letter in its place |
| ScheduleUtils.NormalizeMiercoles | src/lib/schedule-utils.ts:19-25 | "miércoles" loses its accent |
| ScheduleUtils.NormalizeSabado | src/lib/schedule-utils.ts:19-25 | "sábado" loses its accent |
| ScheduleUtils.DayToJsIsDayOrder | src/lib/schedule-utils.ts:27-37 | `DAY_TO_JS` agrees key for key with `DAY_ORDER` |
| ScheduleUtils.DayToJsRange | src/lib/schedule-utils.ts:27-37 | every weekday in the table is 0..6 |
| ScheduleUtils.DayKeysNormalizeToSameDay | src/lib/schedule-utils.ts:19-37 | every table key normalizes to a key with the same weekday |
| ScheduleUtils.CanonicalDaysNormalized | src/lib/schedule-utils.ts:19-25 | the seven unaccented day names are their own normal form |
| ScheduleUtils.WeekdayStep | src/lib/schedule-utils.ts:43 | the offset `(target - today + 7) % 7` is 0..6, and going that far from today lands on the target |
| ScheduleUtils.DayKeysAreShortWords | src/lib/schedule-utils.ts:27-37 | every day key has 1..9 characters and starts with a lowercase letter |
| ScheduleUtils.InheritedKeysAreNotDays | src/lib/schedule-utils.ts:42 | "constructor" and "__proto__" are not keys of the table |
| ScheduleUtils.NextClassOffsetAsWritten | src/lib/schedule-utils.ts:42-43 | the code as written gives no offset (an invalid date) exactly when the lowercased name is an inherited property |
| ScheduleUtils.NextClassOffsetAsWrittenFails | src/lib/schedule-utils.ts:42 | a course whose day reads "Constructor" gets no next date |
| ScheduleUtils.NextClassOffset | src/lib/schedule-utils.ts:41-45 | the offset is 0..6 and lands on the named day; a name that is not a key gives 0 (today) |
| ScheduleUtils.NextClassOffsetAsWrittenAgrees | src/lib/schedule-utils.ts:42-43 | the code as written gives the intended offset exactly when the name is not an inherited property |
| ScheduleUtils.NextClassOffsetExample | src/lib/schedule-utils.ts:41-45 | from a Friday, the next Monday is 3 days ahead |
| ScheduleUtils.NextClassOffsetAccented | src/lib/schedule-utils.ts:42 | "SÁBADO" lowercases to an accented key and is found |
| ScheduleUtils.NextClassOffsetUntrimmed | src/lib/schedule-utils.ts:42 | a name with a leading space is not found and falls back to today |
| CourseSort.StatusRank | src/lib/course-sort.ts:41-47 | -1 exactly for a status not in `STATUS_OPTIONS`; otherwise the position that holds it |
| CourseSort.DayRank | src/lib/course-sort.ts:48-54 | the intended day rank: the `DAY_ORDER` entry of the lowercased day; 99 exactly when the day is null or not a key; otherwise 0..6 |
| CourseSort.KeyOf | src/lib/course-sort.ts:33-58 | one course's key is at most another's exactly when the option's comparator does not put the first after the second |
| CourseSort.SortCourses | src/lib/course-sort.ts:31-60 | "default" returns the input; every other option returns a permutation ordered by its key, with equal keys in input order (the day option with the intended rank) |
| CourseSort.SortCoursesLoop | src/lib/course-sort.ts:31-60 | the insertion-sort loop gives the same list as `sortCourses` |
| CourseSort.CreditsNonIncreasing | src/lib/course-sort.ts:55-57 | sorting by credits gives non-increasing credits |
| CourseSort.NameOrders | src/lib/course-sort.ts:35-40 | names ascend under the collation for name-asc and descend for name-desc |
| CourseSort.StatusOrder | src/lib/course-sort.ts:41-47 | statuses follow `STATUS_OPTIONS`; an unlisted status never comes after COMPLETED |
| CourseSort.DayOrderSort | src/lib/course-sort.ts:48-54 | with the intended rank, days follow `DAY_ORDER` and null or unknown days come after every known day |
| CourseSort.DayRankExamples | src/lib/course-sort.ts:50-52 | domingo ranks 0, not as missing; a null day ranks 99 |
| CourseSort.DayRankAsWritten | src/lib/course-sort.ts:51-52 | the lookup as written: no number exactly when the lowercased day is an inherited `Object.prototype` name, otherwise the intended rank |
| CourseSort.DayComparisonAsWritten | src/lib/course-sort.ts:49-53 | the comparator as the sort reads it: 0 when either day is an inherited name, else the difference of the intended ranks |
| CourseSort.DayComparisonAsWrittenInconsistent | src/lib/course-sort.ts:49-53 | a "Constructor" day compares equal to lunes and to domingo, which do not compare equal to each other |
| CoursesGrid.InsertUnique | src/components/courses/courses-grid.tsx:29-30 | adding to an ascending list of distinct numbers keeps it so and adds exactly the new number |
| CoursesGrid.Semesters | src/components/courses/courses-grid.tsx:28-31 | strictly ascending, holding exactly the semesters of the courses |
| CoursesGrid.FilterCourses | src/components/courses/courses-grid.tsx:33-50 | an order-preserving subsequence keeping exactly the courses that pass the semester, status and query filters, each as often as it occurs |
| CoursesGrid.MatchesQuery | src/components/courses/courses-grid.tsx:39-46 | an empty query matches; otherwise the lowercased query occurs as a block of the lowercased name or code |
| CoursesGrid.NoFiltersKeepAll | src/components/courses/courses-grid.tsx:33-50 | with no semester, no status and an empty query, every course is kept |
| CoursesGrid.Toggle | src/components/courses/courses-grid.tsx:56-63 | flips the membership of the given id and of no other |
| CoursesGrid.ToggleTwice | src/components/courses/courses-grid.tsx:56-63 | toggling the same id twice restores the set |
| CoursesGrid.CurrentIndex | src/components/courses/courses-grid.tsx:65-67 | the position of the selected semester; -1 exactly when nothing is selected, the selection is 0, or it is not listed |
| CoursesGrid.GoPrev | src/components/courses/courses-grid.tsx:69-73 | moves to the next smaller listed semester, and only when the selection is past the first |
| CoursesGrid.GoNext | src/components/courses/courses-grid.tsx:75-79 | moves to the next larger listed semester; with no selection to the smallest; no change at the last |
| DashboardCourses.CurrentSemester | src/components/dashboard/dashboard-courses.tsx:41 | defined exactly for an index inside the list, and then a listed semester |
| DashboardCourses.FilterCourses | src/components/dashboard/dashboard-courses.tsx:52-65 | the semester pass followed by the search pass is one filter pass by both conditions, so order and multiplicity are kept |
| DashboardCourses.FilterMembership | src/components/dashboard/dashboard-courses.tsx:52-65 | a course is kept exactly when it is in the current semester and its name or code contains the query; order is kept |
| DashboardCourses.StepPrev | src/components/dashboard/dashboard-courses.tsx:87-89 | one step back, never below 0 |
| DashboardCourses.StepNext | src/components/dashboard/dashboard-courses.tsx:100-104 | one step forward, never past the last index |
| DashboardCourses.StepsStayInRange | src/components/dashboard/dashboard-courses.tsx:87-104 | with at least one semester, both buttons keep the index in the list, so the current semester stays defined |
| DashboardCourses.Displayed | src/components/dashboard/dashboard-courses.tsx:67-69 | "default" shows the filtered list itself; any other option shows it ordered by the option's key, equal keys in filtered order, as a permutation |
| GradesTable.GroupRows | src/components/grades/grades-table.tsx:48-54 | one non-empty group per course, holding exactly that course's rows in input order; every row's course has a group; a group listed earlier has its course's first row earlier |
| GradesTable.AddRowOrder | src/components/grades/grades-table.tsx:50-54 | one step keeps the groups in the order their courses first appear |
| GradesTable.AddRowGroupsRows | src/components/grades/grades-table.tsx:50-53 | one loop step keeps each group equal to its course's rows so far |
| GradesTable.AddRowDistinct | src/components/grades/grades-table.tsx:50-53 | one loop step never gives a course two groups |
| GradesTable.AddRowCovers | src/components/grades/grades-table.tsx:50-53 | after one loop step every row so far has its course's group |
| GradesTable.GroupingKeepsEveryRow | src/components/grades/grades-table.tsx:48-54 | the groups hold every grade row exactly as often as the input does |
| GradesTable.OrderedGroups | src/components/grades/grades-table.tsx:60-66 | the groups stably sorted by first row's semester, then course name |
| GradesTable.GroupsBySemesterThenName | src/components/grades/grades-table.tsx:60-66 | in display order semesters never decrease, and within one semester names never decrease under the collation |
| GradesTable.Render | src/components/grades/grades-table.tsx:36-66 | the empty state exactly for no rows; otherwise non-empty groups that hold every row once |
| GradesTable.LookupAverage | src/components/grades/grades-table.tsx:56-58 | the last entry for the course wins; a course without an entry gets null |
| GradesTable.WeightCell | src/components/grades/grades-table.tsx:103 | "-" exactly for a weight ≤ 0, otherwise the weight as a percentage |
| GradesTable.MomentoCell | src/components/grades/grades-table.tsx:106 | "-" exactly for a missing or empty momento, otherwise the momento |
| GradesTable.AverageCell | src/components/grades/grades-table.tsx:115-117 | "-" exactly for a null average, otherwise the average with its colour band |
| GradesTable.AverageRowFallback | src/components/grades/grades-table.tsx:82 | the average row shows "-" exactly when no entry names the course or its last entry is null |
| WeekGrid.ScheduleDaysAreCanonical | src/components/schedule/week-grid.tsx:27-34 | the columns are the canonical days without domingo |
| WeekGrid.ScheduleColumnsAreWeekdays | src/components/schedule/week-grid.tsx:27-34 | each column is a normalized day name and shows JavaScript weekday index + 1 |
| WeekGrid.MomentoCourses | src/components/schedule/week-grid.tsx:533-535 | an order-preserving subsequence of exactly the courses of the tab or of "FULL" |
| WeekGrid.NoMomentoNotShown | src/components/schedule/week-grid.tsx:533-535 | a course without a momento appears under no tab |
| WeekGrid.ClassCount | src/components/schedule/week-grid.tsx:540 | at most the number of shown courses, and equal to it exactly when every shown course has a day |
| WeekGrid.ClassNoun | src/components/schedule/week-grid.tsx:550 | "class" exactly for a count of one, "classes" otherwise |
| WeekGrid.CourseIndex | src/components/schedule/week-grid.tsx:537-538 | the last position with the id, or none when no course has it |
| WeekGrid.CourseColor | src/components/schedule/week-grid.tsx:61-63 | always one of the ten gradients |
| WeekGrid.CourseColorCycles | src/components/schedule/week-grid.tsx:464-466 | the colour is entry index mod 10; an unknown id gets the first colour |
| WeekGrid.CompactRange | src/components/schedule/week-grid.tsx:50-59 | the two `formatTime` texts joined by " - ", with the start's period dropped when it equals the end's |
| WeekGrid.AdjustEnd | src/components/schedule/week-grid.tsx:266-268 | the end ends up after the start; it is unchanged if already after, else at most 720 min after the start, and always moved by whole 12-hour steps |
| WeekGrid.AdjustEndLoop | src/components/schedule/week-grid.tsx:266-268 | the loop computes the adjusted end |
| WeekGrid.Position | src/components/schedule/week-grid.tsx:256-277 | a course is placed exactly when it has a day and a time and its normalized day is a column; it then sits in that column, starts at its parsed start and ends after it |
| WeekGrid.SundayNotPlaced | src/components/schedule/week-grid.tsx:260-278 | a class whose day normalizes to domingo is not placed |
| WeekGrid.Somes | src/components/schedule/week-grid.tsx:254-278 | the present values, one for each option the filter keeps and in the same order |
| WeekGrid.Positioned | src/components/schedule/week-grid.tsx:254-278 | entry i is the i-th present placement in course order, so each placement appears once per course that has it, no more entries than courses |
| WeekGrid.PositionedEntries | src/components/schedule/week-grid.tsx:254-278 | every placed class ends after it starts and sits in one of the six columns |
| WeekGrid.ClassCountCoversPositioned | src/components/schedule/week-grid.tsx:540 | the header's class count is at least the number of placed classes |
| WeekGrid.RoundedBlocks | src/components/schedule/week-grid.tsx:286-290 | each placed class rounded out to whole hours, one block per class |
| WeekGrid.SortedBlocksProper | src/components/schedule/week-grid.tsx:286-291 | the sorted blocks are proper, sorted by start, and a permutation of the rounded blocks |
| WeekGrid.SegmentsShape | src/components/schedule/week-grid.tsx:293-308 | the merged segments are proper and more than an hour apart, and exist whenever a class is placed |
| WeekGrid.RoundedBlocksCovered | src/components/schedule/week-grid.tsx:286-308 | every rounded block lies inside a merged segment |
| WeekGrid.SegmentsCover | src/components/schedule/week-grid.tsx:286-308 | every placed class lies inside one of the merged segments shared by all columns |
| WeekGrid.BlockHeightsTrueToLength | src/components/schedule/week-grid.tsx:374-383 | each block is as tall as the class lasts at 80 px per hour, but at least 68 px |
| WeekGrid.TopsFollowStarts | src/components/schedule/week-grid.tsx:374-383 | a class starting no later than another is drawn no lower |
| WeekGrid.DesktopSchedule | src/components/schedule/week-grid.tsx:254-383 | the empty state exactly when nothing is placed; otherwise the grid height, the hour markers and one block per placed class at its minute position |
| WeekGrid.BlocksTrueToLength | src/components/schedule/week-grid.tsx:374-383 | in the rendered grid every block is true to length with a 68 px minimum, and block tops follow start times |
| WeekLayout.FloorHour | src/components/schedule/week-grid.tsx:288 | the whole hour at or before the minute |
| WeekLayout.CeilHour | src/components/schedule/week-grid.tsx:289 | the whole hour at or after the minute |
| WeekLayout.RoundOut | src/components/schedule/week-grid.tsx:286-291 | both ends on whole hours; the block encloses the class and extends less than an hour beyond it on each side |
| WeekLayout.MergeStepProperties | src/components/schedule/week-grid.tsx:295-307 | one merge step keeps the segments proper and separated, and the new interval lies in the last segment |
| WeekLayout.MergeShape | src/components/schedule/week-grid.tsx:293-308 | merging gives proper segments more than an hour apart, present exactly when there is input |
| WeekLayout.MergeCovers | src/components/schedule/week-grid.tsx:293-308 | every input block lies inside some merged segment |
| WeekLayout.MergeProperties | src/components/schedule/week-grid.tsx:293-308 | merging gives proper, separated segments, and every input block lies inside one of them |
| WeekLayout.CoveringSegmentUnique | src/components/schedule/week-grid.tsx:293-308 | separated segments never both contain the same block, so each block has exactly one segment |
| WeekLayout.MergeLoop | src/components/schedule/week-grid.tsx:293-308 | the in-place loop, extending `last.end`, computes the merge |
| WeekLayout.Merge | src/components/schedule/week-grid.tsx:293-308 | no more segments than intervals, and none exactly when there is no interval |
| WeekLayout.Layout | src/components/schedule/week-grid.tsx:310-329 | one laid-out segment per merged segment, at its offset and with height (end − start) · 80/60 |
| WeekLayout.LayoutStacks | src/components/schedule/week-grid.tsx:316-331 | offsets start at 0, each next is the previous offset plus height plus 26, and the content ends at the last segment's bottom |
| WeekLayout.ContentHeight | src/components/schedule/week-grid.tsx:331 | 0 for no segment; otherwise the bottom of the last segment |
| WeekLayout.LayoutLoop | src/components/schedule/week-grid.tsx:310-331 | the running-offset loop computes the layout and the content height |
| WeekLayout.LayoutWellFormed | src/components/schedule/week-grid.tsx:310-329 | the layout of merged segments is ordered and stacked with gaps |
| WeekLayout.GridHeight | src/components/schedule/week-grid.tsx:332-333 | the least height that is at least 280 px and holds the content with both paddings |
| WeekLayout.TopOffset | src/components/schedule/week-grid.tsx:334-335 | at least the top padding; the spare height is split evenly above and below; content needing more than the minimum starts right after the top padding |
| WeekLayout.MinuteToPxInside | src/components/schedule/week-grid.tsx:337-353 | inside a segment, pixels grow linearly from the segment's top at 80 px per hour |
| WeekLayout.MinuteToPx | src/components/schedule/week-grid.tsx:337-353 | on a well-formed layout: a minute up to the first start maps to the first top, every minute maps between the first top and the content bottom, and past the last end maps to the bottom |
| WeekLayout.MinuteToPxGap | src/components/schedule/week-grid.tsx:337-353 | a minute in the gap before a segment maps to that segment's top |
| WeekLayout.MinuteToPxPast | src/components/schedule/week-grid.tsx:337-353 | a minute after the last segment maps to the bottom of the content |
| WeekLayout.MinuteToPxMonotone | src/components/schedule/week-grid.tsx:337-353 | later minutes never map above earlier ones |
| WeekLayout.HourOf | src/components/schedule/week-grid.tsx:363 | a marker's hour is 0..23 for a non-negative minute (JavaScript's `%` keeps the sign otherwise) |
| WeekLayout.HourOfNextMarker | src/components/schedule/week-grid.tsx:362-363 | each next marker is one hour later on the 24-hour clock, wrapping after 23 |
| WeekLayout.MarkerMinutes | src/components/schedule/week-grid.tsx:362 | the loop visits start, start + 60, … and stops at the last minute not past the end |
| WeekLayout.DropFirstZeroMinutes | src/components/schedule/week-grid.tsx:367 | replacing the first ":00" after the hour digits removes exactly it |
| WeekLayout.MarkerLabelText | src/components/schedule/week-grid.tsx:367 | a marker label is the clock-face hour and the period, with no minutes |
| WeekLayout.SegmentMarkers | src/components/schedule/week-grid.tsx:361-369 | one marker per visited minute of the segment, in order |
| WeekLayout.SegmentMarkersStart | src/components/schedule/week-grid.tsx:355-372 | a segment's first marker sits at its top |
| WeekLayout.SegmentMarkersStep | src/components/schedule/week-grid.tsx:355-372 | within a segment, markers are exactly 80 px apart |
| WeekLayout.HourMarkersPrefix | src/components/schedule/week-grid.tsx:355-372 | the markers of earlier segments come first |
| WeekLayout.HourMarkers | src/components/schedule/week-grid.tsx:355-372 | every marker is a marker of one of the segments visited |
| WeekLayout.HourMarkersBlock | src/components/schedule/week-grid.tsx:355-372 | each segment's markers appear as one block, right after those of the earlier segments |
| WeekLayout.BlockHeightInsideSegment | src/components/schedule/week-grid.tsx:374-383 | a class inside one segment starts at its linear position and is drawn true to length, at least 68 px |
| WeekLayout.BlockHeight | src/components/schedule/week-grid.tsx:381 | `Math.max`: never below 68 px nor below the pixel distance between the class's ends, and equal to one of them |

## Left out

- `parseTimeRange` and `formatTimeRange` are not part of this model. The week grid
  takes the parsed range of each course as the parameter `parseRange`.
- IEEE-754 arithmetic is not modelled; numbers are exact reals. `toFixed` display text
  is left out, and so are the `${weight}%` digits: the cell keeps the number.
- Unicode is covered only by a finite table:
  - `toLowerCase` covers A–Z and the Latin-1 capitals;
  - `normalize("NFD")` covers the precomposed lowercase Latin-1 letters;
  - `localeCompare` is an abstract collation key.

  The full Unicode database is left out.
- `new Date()`, `getDay` and `setDate` are left out. Today's weekday is a parameter, and
  the model gives the day offset rather than a date.
- `getTodayDayName`, `DAY_SHORT` and the mobile agenda view are rendering only.
- React state, hooks, rendering, styling, the shadow palette and confetti are left out.
- Authentication, Prisma queries, the server actions and `revalidatePath` are I/O and
  persistence.
- zod's error messages are left out: the schemas are acceptance predicates only.
- The marker key text `${segmentIndex}-${minute}` is built but not proved unique.
- The per-segment marker labels are given by `Marker` and `MarkerLabelText`. No lemma
  states them element by element over `hourMarkers`.
- CourseSort.DayRank: is the intended rank, 99 for a day that lowercases to
  "constructor" or "__proto__". The source's comparator gives `NaN` for such a day, and
  the order `sort` then returns is left to the JavaScript engine. That order is not
  modelled; `DayComparisonAsWritten` models the comparator itself (see Findings).
- GradeUtils.Gpa: requires every course's credits to be positive. A zero credit sum
  gives `NaN` in the source, and that case is not modelled.
- `course-card.tsx` and `status-badge.tsx` are left out. Their NOT_STARTED fallback
  and colour index are plain table lookups.

## Findings

| source | as written | input that shows it | evidently intended | confidence | as-written member | corrected member |
|---|---|---|---|---|---|---|
| src/lib/schedule-utils.ts:42 | `DAY_TO_JS[dayName.toLowerCase()] ?? todayDay` indexes a plain object literal. For "constructor" or "__proto__" it finds an inherited property that is not nullish, so `??` keeps it, and the arithmetic gives `NaN`: an invalid date | `getNextClassDate("Constructor")` | a name that is not a day key falls back to today (offset 0) | not executed | ScheduleUtils.NextClassOffsetAsWritten (shown by ScheduleUtils.NextClassOffsetAsWrittenFails) | ScheduleUtils.NextClassOffset |
| src/lib/course-sort.ts:51-52 | `DAY_ORDER[a.day?.toLowerCase() ?? ""] ?? 99` indexes a plain object literal. A day lowercasing to "constructor" or "__proto__" finds an inherited property that is not nullish, `?? 99` keeps it, and the difference is `NaN`, which the sort reads as equal. The comparator is then inconsistent and the order is engine-defined | `sortCourses([lunes, "Constructor", domingo], "day")`: domingo may stay after lunes | an unknown day ranks 99 and sorts after every known day | not executed | CourseSort.DayComparisonAsWritten (shown by CourseSort.DayComparisonAsWrittenInconsistent) | CourseSort.DayRank (ordered by CourseSort.DayOrderSort) |
