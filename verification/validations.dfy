/**
 * The input schemas of `src/lib/validations.ts`, restated as acceptance predicates
 * over typed inputs. Bounds are inclusive; string bounds count UTF-16 code units,
 * as JavaScript's `length` does. An absent optional field is `None`.
 */
module Validations {

  import opened Wrappers
  import Constants
  import GradeUtils
  import Seqs

  /** A code point above U+FFFF, written in UTF-16 as a surrogate pair. */
  predicate IsAstral(c: char) {
    c as int > 0xFFFF
  }

  /**
   * JavaScript `length`: one UTF-16 code unit per character plus one more for each
   * astral character.
   */
  function JsLength(s: string): (n: nat)
    ensures |s| <= n <= 2 * |s|
    ensures n == |s| + |Seqs.Filter(s, IsAstral)|
    ensures n == |s| <==> forall i :: 0 <= i < |s| ==> !IsAstral(s[i])
  {
    if |s| == 0 then 0 else (if s[0] as int > 0xFFFF then 2 else 1) + JsLength(s[1..])
  }

  /** `z.string().min(lo).max(hi)`. */
  predicate LengthBetween(s: string, lo: nat, hi: nat) {
    lo <= JsLength(s) <= hi
  }

  /** `courseStatusSchema`. */
  predicate IsCourseStatus(s: string) {
    s == "COMPLETED" || s == "IN_PROGRESS" || s == "PLANNED" || s == "NOT_STARTED"
  }

  datatype UpdateCourseStatusInput = UpdateCourseStatusInput(courseId: string, status: string)

  /** `updateCourseStatusSchema`. */
  predicate AcceptsUpdateCourseStatus(x: UpdateCourseStatusInput) {
    JsLength(x.courseId) >= 1 && IsCourseStatus(x.status)
  }

  datatype AddGradeInput = AddGradeInput(courseId: string, labelText: string, value: real, weight: real, momento: Option<string>)

  predicate ValueInRange(v: real) {
    0.0 <= v <= 5.0
  }

  predicate WeightInRange(w: real) {
    0.0 <= w <= 100.0
  }

  /** `addGradeSchema`. */
  predicate AcceptsAddGrade(x: AddGradeInput) {
    JsLength(x.courseId) >= 1 && LengthBetween(x.labelText, 1, 200) && ValueInRange(x.value) && WeightInRange(x.weight)
  }

  /** The `data` of a grade update: every field optional. */
  datatype GradePatch = GradePatch(labelText: Option<string>, value: Option<real>, weight: Option<real>, momento: Option<string>)

  datatype UpdateGradeInput = UpdateGradeInput(gradeId: string, data: GradePatch)

  /** `updateGradeSchema`. */
  predicate AcceptsUpdateGrade(x: UpdateGradeInput) {
    && JsLength(x.gradeId) >= 1
    && (x.data.labelText.None? || LengthBetween(x.data.labelText.value, 1, 200))
    && (x.data.value.None? || ValueInRange(x.data.value.value))
    && (x.data.weight.None? || WeightInRange(x.data.weight.value))
  }

  datatype AddNoteInput = AddNoteInput(courseId: string, title: string, content: string)

  /** `addNoteSchema`. */
  predicate AcceptsAddNote(x: AddNoteInput) {
    JsLength(x.courseId) >= 1 && LengthBetween(x.title, 1, 500) && JsLength(x.content) <= 10000
  }

  datatype NotePatch = NotePatch(title: Option<string>, content: Option<string>, pinned: Option<bool>)

  datatype UpdateNoteInput = UpdateNoteInput(noteId: string, data: NotePatch)

  /** `updateNoteSchema`. */
  predicate AcceptsUpdateNote(x: UpdateNoteInput) {
    && JsLength(x.noteId) >= 1
    && (x.data.title.None? || LengthBetween(x.data.title.value, 1, 500))
    && (x.data.content.None? || JsLength(x.data.content.value) <= 10000)
  }

  /** The status enum accepts exactly the keys listed in `STATUS_OPTIONS`. */
  lemma StatusSchemaMatchesStatusOptions(s: string)
    ensures IsCourseStatus(s) <==> s in Constants.StatusOptions
    ensures IsCourseStatus(s) <==> Constants.StatusFromKey(s).Some?
  {
  }

  /** The bounds are inclusive at both ends, and just outside them is rejected. */
  lemma GradeBoundsInclusive(courseId: string, labelText: string)
    requires LengthBetween(courseId, 1, 1000) && LengthBetween(labelText, 1, 200)
    ensures AcceptsAddGrade(AddGradeInput(courseId, labelText, 0.0, 0.0, None))
    ensures AcceptsAddGrade(AddGradeInput(courseId, labelText, 5.0, 100.0, None))
    ensures !AcceptsAddGrade(AddGradeInput(courseId, labelText, 5.01, 50.0, None))
    ensures !AcceptsAddGrade(AddGradeInput(courseId, labelText, 3.0, 100.5, None))
    ensures !AcceptsAddGrade(AddGradeInput(courseId, labelText, -0.1, 50.0, None))
  {
  }

  /** A character outside the Basic Multilingual Plane counts as two code units. */
  lemma LabelLengthCountsCodeUnits()
    ensures JsLength("\U{1F600}") == 2
    ensures !LengthBetween("\U{1F600}", 1, 1)
  {
  }

  /** An update whose data object is empty is accepted for any non-empty grade id. */
  lemma EmptyGradePatchAccepted(gradeId: string)
    requires |gradeId| > 0
    ensures AcceptsUpdateGrade(UpdateGradeInput(gradeId, GradePatch(None, None, None, None)))
  {
  }

  /** A note update may set `pinned` to either value without touching the other fields. */
  lemma PinnedPatchAccepted(noteId: string, pinned: bool)
    requires |noteId| > 0
    ensures AcceptsUpdateNote(UpdateNoteInput(noteId, NotePatch(None, None, Some(pinned))))
  {
  }

  /** A grade update that sets every field is accepted exactly when a new grade with those fields is. */
  lemma GradeUpdateMatchesCreation(id: string, labelText: string, value: real, weight: real, momento: Option<string>)
    ensures AcceptsUpdateGrade(UpdateGradeInput(id, GradePatch(Some(labelText), Some(value), Some(weight), momento)))
            <==> AcceptsAddGrade(AddGradeInput(id, labelText, value, weight, momento))
  {
  }

  /** A note update that sets title and content is accepted exactly when a new note with them is. */
  lemma NoteUpdateMatchesCreation(id: string, title: string, content: string, pinned: Option<bool>)
    ensures AcceptsUpdateNote(UpdateNoteInput(id, NotePatch(Some(title), Some(content), pinned)))
            <==> AcceptsAddNote(AddNoteInput(id, title, content))
  {
  }

  /** A note's content may be empty; its title may not. */
  lemma NoteContentMayBeEmpty(courseId: string, title: string)
    requires |courseId| > 0 && LengthBetween(title, 1, 500)
    ensures AcceptsAddNote(AddNoteInput(courseId, title, ""))
    ensures !AcceptsAddNote(AddNoteInput(courseId, "", ""))
  {
  }

  /** The stored grade after an update: fields present in the patch overwrite, the others stay. */
  function ApplyGradePatch(g: AddGradeInput, p: GradePatch): AddGradeInput {
    AddGradeInput(g.courseId, p.labelText.GetOr(g.labelText), p.value.GetOr(g.value), p.weight.GetOr(g.weight),
                  if p.momento.Some? then p.momento else g.momento)
  }

  /** An accepted update applied to an accepted grade leaves a grade the creation schema accepts. */
  lemma UpdatePreservesGradeBounds(g: AddGradeInput, u: UpdateGradeInput)
    requires AcceptsAddGrade(g) && AcceptsUpdateGrade(u)
    ensures AcceptsAddGrade(ApplyGradePatch(g, u.data))
  {
  }

  /** The grade records built from accepted inputs. */
  function ToGrades(xs: seq<AddGradeInput>): (gs: seq<GradeUtils.Grade>)
    ensures |gs| == |xs|
    ensures forall i :: 0 <= i < |xs| ==> gs[i] == GradeUtils.Grade(xs[i].value, xs[i].weight)
  {
    seq(|xs|, i requires 0 <= i < |xs| => GradeUtils.Grade(xs[i].value, xs[i].weight))
  }

  /** Grades accepted by the schema average to a value on the 0-5 scale. */
  lemma AcceptedGradesAverageInScale(xs: seq<AddGradeInput>)
    requires forall i :: 0 <= i < |xs| ==> AcceptsAddGrade(xs[i])
    ensures var r := GradeUtils.WeightedAverage(ToGrades(xs)); r.Some? ==> 0.0 <= r.value <= 5.0
  {
    GradeUtils.WeightedAverageInScale(ToGrades(xs));
  }
}
