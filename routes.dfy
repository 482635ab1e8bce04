/**
 * The route handlers that touch the catalog: /catalog, /course/<code> and
 * /add_course, each over the catalog file passed in as a `Store`.
 */
module Routes {
  import opened CourseData
  import opened CourseStore
  import opened CatalogService

  /** A request to /add_course: GET shows the form, POST submits it. */
  datatype AddRequest = ShowForm | SubmitForm(form: Form)

  /** `course_catalog`: the stored list, unfiltered and in stored order. */
  method CourseCatalog(store: Store) returns (r: Outcome)
    ensures r.Render? && r.view == CatalogView && r.data.CourseList?
    ensures !store.fileExists ==> r.data.courses == []
    ensures store.fileExists ==> r.data.courses == store.records
  {
    var courses := store.Load();
    r := Render(CatalogView, CourseList(courses));
  }

  /**
   * `course_details`: render the first stored record whose code equals
   * `code`; with no such record, flash an error and redirect to the catalog.
   */
  method CourseDetails(store: Store, code: string) returns (r: Outcome)
    ensures var courses := store.Stored();
      r.Render? <==> exists i :: 0 <= i < |courses| && courses[i].code == Some(code)
    ensures var courses := store.Stored();
      r.Render? ==> r.view == DetailsView && r.data.OneCourse? &&
                    exists i :: IsFirstMatch(courses, code, i) && r.data.course == courses[i]
    ensures r.Redirect? ==> r == Redirect(CatalogPage, Notice(Error, NotFoundText(code)))
  {
    var courses := store.Load();
    match FirstMatch(courses, code)
    case None =>
      r := Redirect(CatalogPage, Notice(Error, NotFoundText(code)));
    case Some(i) =>
      r := Render(DetailsView, OneCourse(courses[i]));
  }

  /**
   * `add_course`: GET renders the empty form; POST validates the submission
   * as the variant does, and either redirects back to the form leaving the
   * file untouched, or saves exactly one record and redirects to the catalog.
   */
  method AddCourse(store: Store, v: Variant, req: AddRequest) returns (r: Outcome)
    modifies store
    ensures req.ShowForm? ==> unchanged(store) && r == Render(AddCourseView, NoData)
    ensures req.SubmitForm? && Rejects(v, req.form) ==>
      unchanged(store) && r == Redirect(AddCoursePage, Notice(Error, RejectionText(v, req.form)))
    ensures req.SubmitForm? && !Rejects(v, req.form) ==> store.fileExists
    ensures req.SubmitForm? ==>
      var result := Submit(v, old(store.Stored()), req.form);
      store.Stored() == result.stored && r == result.outcome
  {
    if req.ShowForm? {
      return Render(AddCourseView, NoData);
    }
    var f := req.form;
    match v {
      case Strict =>
        var missing := CollectMissing(f);
        ListsMissingUnique(missing, MissingLabels(f), f);
        if missing != [] {
          return Redirect(AddCoursePage, Notice(Error, RequiredFieldsText(missing)));
        }
      case Lax =>
        if Blank(f.name) || Blank(f.instructor) {
          return Redirect(AddCoursePage, Notice(Error, NameAndInstructorRequiredText));
        }
    }
    store.Save(Course(f.name, f.instructor, f.semester, f.code));
    r := Redirect(CatalogPage, Notice(Success, AddedText(f.name.value)));
  }

  /** Adding a course to a missing file, then listing the catalog. */
  method ScenarioAddToEmpty()
  {
    var store := new Store.Absent();
    var algorithms := Form(Some("Algorithms"), Some("Dr. A"), Some("Fall"), Some("CS301"));
    var r := AddCourse(store, Strict, SubmitForm(algorithms));
    assert r.target == CatalogPage && r.notice.category == Success;
    var listing := CourseCatalog(store);
    assert listing.data.courses == [Course(Some("Algorithms"), Some("Dr. A"), Some("Fall"), Some("CS301"))];
  }

  /** Looking up a code no record carries. */
  method ScenarioUnknownCode()
  {
    var store := new Store.Holding([Course(Some("Algorithms"), Some("Dr. A"), Some("Fall"), Some("CS301"))]);
    var r := CourseDetails(store, "CS999");
    assert r == Redirect(CatalogPage, Notice(Error, NotFoundText("CS999")));
  }

  /** Submitting with the instructor left empty. */
  method ScenarioNoInstructor(store: Store)
    modifies store
  {
    var noInstructor := Form(Some("Networks"), Some(""), Some("Spring"), Some("CS302"));
    MissingLabelsOfNoInstructor(noInstructor);
    var before := store.Stored();
    var r := AddCourse(store, Strict, SubmitForm(noInstructor));
    assert r == Redirect(AddCoursePage, Notice(Error, RequiredFieldsText([InstructorLabel])));
    assert store.Stored() == before;
  }

  lemma MissingLabelsOfNoInstructor(f: Form)
    requires !Blank(f.name) && Blank(f.instructor) && !Blank(f.semester) && !Blank(f.code)
    ensures MissingLabels(f) == [InstructorLabel]
  {
  }
}
