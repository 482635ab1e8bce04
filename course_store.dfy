/**
 * The catalog file course_catalog.json, read whole by `load_courses` and
 * rewritten whole by `save_courses`.
 */
module CourseStore {
  import opened CourseData

  /**
   * The file as the application sees it: whether it exists and, when it
   * does, the list of records its JSON array holds.
   */
  class Store {
    var fileExists: bool
    var records: seq<Course>

    /** No catalog file yet. */
    constructor Absent()
      ensures !fileExists && Stored() == []
    {
      fileExists := false;
      records := [];
    }

    /** A catalog file holding `courses`. */
    constructor Holding(courses: seq<Course>)
      ensures fileExists && records == courses && Stored() == courses
    {
      fileExists := true;
      records := courses;
    }

    /** The list `load_courses` returns in the current state: a missing file reads as the empty list. */
    function Stored(): seq<Course>
      reads this
    {
      if fileExists then records else []
    }

    /** `load_courses`: a missing file reads as the empty list, not as an error. */
    method Load() returns (courses: seq<Course>)
      ensures courses == Stored()
    {
      if !fileExists {
        return [];
      }
      courses := records;
    }

    /**
     * `save_courses`: re-read the list, append `course` at its end and
     * rewrite the whole file, creating it if it was missing.
     */
    method Save(course: Course)
      modifies this
      ensures fileExists
      ensures Stored() == old(Stored()) + [course]
      ensures |Stored()| == |old(Stored())| + 1
      ensures Stored()[..|old(Stored())|] == old(Stored())
      ensures Stored()[|old(Stored())|] == course
    {
      var courses := Load();
      courses := courses + [course];
      records, fileExists := courses, true;
    }
  }
}
