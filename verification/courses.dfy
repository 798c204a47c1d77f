/** The course record as the listing, dashboard and sorting code read it. */
module Courses {

  import opened Wrappers

  /**
   * A course: its id, code, name, semester number, status key (free text, normally
   * one of `STATUS_OPTIONS`), optional weekday text and credits.
   */
  datatype Course = Course(
    id: string,
    code: string,
    name: string,
    semester: int,
    status: string,
    day: Option<string>,
    credits: int)
}
