/**
 * The logic the route handlers share: first-match lookup by course code,
 * validation of a submission in its two variants, and the effect of a
 * submission on the stored list of courses.
 */
module CatalogService {
  import opened CourseData

  // ---------------------------------------------------------------------
  // Lookup: `next((course for course in courses if course['code'] == code), None)`
  // ---------------------------------------------------------------------

  /** `i` is the first position in `courses` whose code equals `code`. */
  ghost predicate IsFirstMatch(courses: seq<Course>, code: string, i: int) {
    && 0 <= i < |courses|
    && courses[i].code == Some(code)
    && forall j :: 0 <= j < i ==> courses[j].code != Some(code)
  }

  /** The position the generator stops at, scanning in stored order; `None` when it is exhausted. */
  function FirstMatch(courses: seq<Course>, code: string): (r: Option<nat>)
    ensures r.Some? ==> IsFirstMatch(courses, code, r.value)
    ensures r.None? <==> forall j :: 0 <= j < |courses| ==> courses[j].code != Some(code)
  {
    if |courses| == 0 then None
    else if courses[0].code == Some(code) then Some(0)
    else match FirstMatch(courses[1..], code)
      case None => None
      case Some(i) => Some(i + 1)
  }

  /**
   * Appending a record never changes an existing match, and the appended
   * record is found exactly when no earlier record carries its code.
   */
  lemma {:induction false} FirstMatchAfterAppend(courses: seq<Course>, d: Course, code: string)
    ensures FirstMatch(courses + [d], code) ==
      if FirstMatch(courses, code).Some? then FirstMatch(courses, code)
      else if d.code == Some(code) then Some(|courses|)
      else None
  {
    if |courses| > 0 && courses[0].code != Some(code) {
      assert (courses + [d])[1..] == courses[1..] + [d];
      FirstMatchAfterAppend(courses[1..], d, code);
    }
  }

  // ---------------------------------------------------------------------
  // Validation
  // ---------------------------------------------------------------------

  const NameLabel: string := "Course Name"
  const InstructorLabel: string := "Instructor"
  const SemesterLabel: string := "Semester"
  const CodeLabel: string := "Course Code"

  /** The labels, in the order the strict variant checks the fields. */
  const Labels: seq<string> := [NameLabel, InstructorLabel, SemesterLabel, CodeLabel]

  /** The form value the label `Labels[k]` stands for. */
  function FieldAt(f: Form, k: nat): Field
    requires k < 4
  {
    if k == 0 then f.name
    else if k == 1 then f.instructor
    else if k == 2 then f.semester
    else f.code
  }

  /** A label's position in `Labels`. */
  function Rank(fieldLabel: string): nat {
    if fieldLabel == NameLabel then 0
    else if fieldLabel == InstructorLabel then 1
    else if fieldLabel == SemesterLabel then 2
    else 3
  }

  lemma RankOfLabel(k: nat)
    requires k < 4
    ensures Rank(Labels[k]) == k
  {
  }

  /**
   * `missing` holds exactly the labels of the blank fields of `f`, each in
   * its place in the order Course Name, Instructor, Semester, Course Code.
   */
  ghost predicate ListsMissing(missing: seq<string>, f: Form) {
    && (forall l :: l in missing ==> l in Labels)
    && (forall k :: 0 <= k < 4 ==> (Labels[k] in missing <==> Blank(FieldAt(f, k))))
    && (forall i, j :: 0 <= i < j < |missing| ==> Rank(missing[i]) < Rank(missing[j]))
  }

  /** The strict variant's missing-field list, as a value. */
  function MissingLabels(f: Form): (missing: seq<string>)
    ensures ListsMissing(missing, f)
    ensures missing == [] <==> forall k :: 0 <= k < 4 ==> !Blank(FieldAt(f, k))
  {
    var missing :=
      (if Blank(f.name) then [NameLabel] else [])
      + (if Blank(f.instructor) then [InstructorLabel] else [])
      + (if Blank(f.semester) then [SemesterLabel] else [])
      + (if Blank(f.code) then [CodeLabel] else []);
    RankOfLabel(0); RankOfLabel(1); RankOfLabel(2); RankOfLabel(3);
    assert Labels[0] == NameLabel && Labels[1] == InstructorLabel;
    assert Labels[2] == SemesterLabel && Labels[3] == CodeLabel;
    missing
  }

  /** `add_course` (strict): build the missing-field list by successive appends. */
  method CollectMissing(f: Form) returns (missing: seq<string>)
    ensures ListsMissing(missing, f)
  {
    RankOfLabel(0); RankOfLabel(1); RankOfLabel(2); RankOfLabel(3);
    missing := [];
    if Blank(f.name) {
      missing := missing + [NameLabel];
    }
    if Blank(f.instructor) {
      missing := missing + [InstructorLabel];
    }
    if Blank(f.semester) {
      missing := missing + [SemesterLabel];
    }
    if Blank(f.code) {
      missing := missing + [CodeLabel];
    }
  }

  lemma HeadIsMember(t: seq<string>)
    ensures |t| > 0 ==> t[0] in t
  {
  }

  /** Two label lists, each strictly in label order, with the same members are equal. */
  lemma {:induction false} OrderedLabelsDetermined(s: seq<string>, t: seq<string>)
    requires forall l :: l in s ==> l in Labels
    requires forall l :: l in s <==> l in t
    requires forall i, j :: 0 <= i < j < |s| ==> Rank(s[i]) < Rank(s[j])
    requires forall i, j :: 0 <= i < j < |t| ==> Rank(t[i]) < Rank(t[j])
    ensures s == t
  {
    if |s| == 0 {
      HeadIsMember(t);
    } else {
      assert s[0] in s;
      assert |t| > 0;
      assert t[0] in t;
      var i :| 0 <= i < |s| && s[i] == t[0];
      var j :| 0 <= j < |t| && t[j] == s[0];
      assert Rank(s[0]) == Rank(t[0]);
      var ks :| 0 <= ks < 4 && Labels[ks] == s[0];
      var kt :| 0 <= kt < 4 && Labels[kt] == t[0];
      RankOfLabel(ks);
      RankOfLabel(kt);
      assert s[0] == t[0];
      forall l | l in s[1..] ensures l in t[1..] {
        var a :| 1 <= a < |s| && s[a] == l;
        assert s[a] in s;
        var b :| 0 <= b < |t| && t[b] == l;
        assert Rank(s[0]) < Rank(s[a]);
        assert b != 0;
      }
      forall l | l in t[1..] ensures l in s[1..] {
        var b :| 1 <= b < |t| && t[b] == l;
        assert t[b] in t;
        var a :| 0 <= a < |s| && s[a] == l;
        assert Rank(t[0]) < Rank(t[b]);
        assert a != 0;
      }
      OrderedLabelsDetermined(s[1..], t[1..]);
    }
  }

  /** `ListsMissing` pins the missing-field list down completely. */
  lemma ListsMissingUnique(m1: seq<string>, m2: seq<string>, f: Form)
    requires ListsMissing(m1, f) && ListsMissing(m2, f)
    ensures m1 == m2
  {
    forall l | l in m1 ensures l in m2 {
      var k :| 0 <= k < 4 && Labels[k] == l;
    }
    forall l | l in m2 ensures l in m1 {
      var k :| 0 <= k < 4 && Labels[k] == l;
    }
    OrderedLabelsDetermined(m1, m2);
  }

  /** Whether `add_course` turns the submission away. */
  function Rejects(v: Variant, f: Form): (r: bool)
    ensures r <==> Blank(f.name) || Blank(f.instructor) || (v == Strict && (Blank(f.semester) || Blank(f.code)))
  {
    match v
    case Strict =>
      assert f.name == FieldAt(f, 0) && f.instructor == FieldAt(f, 1);
      assert f.semester == FieldAt(f, 2) && f.code == FieldAt(f, 3);
      MissingLabels(f) != []
    case Lax => Blank(f.name) || Blank(f.instructor)
  }

  /**
   * The notice flashed when the submission is turned away: in the strict
   * variant it names every blank field, in the lax variant it is fixed.
   */
  function RejectionText(v: Variant, f: Form): (r: string)
    ensures v == Strict ==> forall k :: 0 <= k < 4 && Blank(FieldAt(f, k)) ==> Occurs(Labels[k], r)
    ensures v == Lax ==> r == NameAndInstructorRequiredText
  {
    var missing := MissingLabels(f);
    LabelsInList(missing, f);
    match v
    case Strict => RequiredFieldsText(missing)
    case Lax => NameAndInstructorRequiredText
  }

  // ---------------------------------------------------------------------
  // The effect of a submission
  // ---------------------------------------------------------------------

  /** The stored list after a POST to /add_course, and the handler's outcome. */
  datatype AddResult = AddResult(stored: seq<Course>, outcome: Outcome)

  /** The POST branch of `add_course` over the list the catalog file holds. */
  function Submit(v: Variant, stored: seq<Course>, f: Form): (r: AddResult)
    ensures |r.stored| == |stored| + (if Rejects(v, f) then 0 else 1)
    ensures r.stored[..|stored|] == stored
    ensures !Rejects(v, f) ==> r.stored[|stored|] == Course(f.name, f.instructor, f.semester, f.code)
    ensures r.outcome.Redirect?
    ensures r.outcome.target == CatalogPage <==> !Rejects(v, f)
    ensures r.outcome.notice.category == Success <==> !Rejects(v, f)
  {
    if Rejects(v, f) then
      AddResult(stored, Redirect(AddCoursePage, Notice(Error, RejectionText(v, f))))
    else
      AddResult(stored + [Course(f.name, f.instructor, f.semester, f.code)],
                Redirect(CatalogPage, Notice(Success, AddedText(f.name.value))))
  }

  /** Each blank field's label sits at some position of a list that `ListsMissing` describes. */
  lemma LabelsInList(missing: seq<string>, f: Form)
    requires ListsMissing(missing, f)
    ensures forall k :: 0 <= k < 4 && Blank(FieldAt(f, k)) ==>
      exists i :: 0 <= i < |missing| && missing[i] == Labels[k]
  {
  }

  /** A rejected strict submission's notice names every blank field. */
  lemma StrictRejectionNamesBlankFields(stored: seq<Course>, f: Form, k: nat)
    requires k < 4 && Blank(FieldAt(f, k))
    ensures Rejects(Strict, f)
    ensures Occurs(Labels[k], Submit(Strict, stored, f).outcome.notice.text)
  {
  }

  /** A rejected strict submission's notice names only blank fields, and no field twice. */
  lemma StrictRejectionListsOnlyBlankFields(f: Form, l: string)
    requires l in MissingLabels(f)
    ensures exists k :: 0 <= k < 4 && Labels[k] == l && Blank(FieldAt(f, k))
    ensures multiset(MissingLabels(f))[l] == 1
  {
    var missing := MissingLabels(f);
    var i :| 0 <= i < |missing| && missing[i] == l;
    forall j | 0 <= j < |missing| && j != i ensures missing[j] != l {
      if j < i {
        assert Rank(missing[j]) < Rank(missing[i]);
      } else {
        assert Rank(missing[i]) < Rank(missing[j]);
      }
    }
    assert missing == missing[..i] + [l] + missing[i + 1..];
    assert l !in missing[..i] && l !in missing[i + 1..];
    assert multiset(missing[..i])[l] == 0 && multiset(missing[i + 1..])[l] == 0;
  }

  /** An accepted submission's notice names the course. */
  lemma AcceptedNoticeNamesCourse(v: Variant, stored: seq<Course>, f: Form)
    requires !Rejects(v, f)
    ensures f.name.Some? && f.name.value != ""
    ensures Submit(v, stored, f).outcome == Redirect(CatalogPage, Notice(Success, AddedText(f.name.value)))
    ensures Occurs(f.name.value, Submit(v, stored, f).outcome.notice.text)
  {
    assert OccursAt(f.name.value, AddedText(f.name.value), 8);
  }

  /** The records a run of submissions appends: those not turned away, in submission order. */
  function AcceptedRecords(v: Variant, forms: seq<Form>): seq<Course> {
    if |forms| == 0 then []
    else
      var f := forms[0];
      (if Rejects(v, f) then [] else [Course(f.name, f.instructor, f.semester, f.code)])
      + AcceptedRecords(v, forms[1..])
  }

  /** The stored list after each of `forms` is submitted in turn. */
  function SubmitAll(v: Variant, stored: seq<Course>, forms: seq<Form>): seq<Course>
    decreases forms
  {
    if |forms| == 0 then stored
    else SubmitAll(v, Submit(v, stored, forms[0]).stored, forms[1..])
  }

  /**
   * The catalog is append-only and keeps submission order: after any run of
   * submissions it is the old list followed by the accepted records.
   */
  lemma {:induction false} SubmitAllAppendsAccepted(v: Variant, stored: seq<Course>, forms: seq<Form>)
    ensures SubmitAll(v, stored, forms) == stored + AcceptedRecords(v, forms)
    decreases forms
  {
    if |forms| > 0 {
      var f := forms[0];
      var next := Submit(v, stored, f).stored;
      SubmitAllAppendsAccepted(v, next, forms[1..]);
      if Rejects(v, f) {
        assert next == stored;
      } else {
        assert next == stored + [Course(f.name, f.instructor, f.semester, f.code)];
      }
    }
  }

  /** A course added under a code no earlier record has is what the lookup then finds. */
  lemma AddedCourseIsFound(v: Variant, stored: seq<Course>, f: Form, code: string)
    requires !Rejects(v, f) && f.code == Some(code)
    requires forall j :: 0 <= j < |stored| ==> stored[j].code != Some(code)
    ensures FirstMatch(Submit(v, stored, f).stored, code) == Some(|stored|)
  {
    var d := Course(f.name, f.instructor, f.semester, f.code);
    assert Submit(v, stored, f).stored == stored + [d];
    FirstMatchAfterAppend(stored, d, code);
  }

  /** An earlier record with the same code shadows every later add. */
  lemma EarlierDuplicateShadows(v: Variant, stored: seq<Course>, f: Form, code: string, i: nat)
    requires FirstMatch(stored, code) == Some(i)
    ensures FirstMatch(Submit(v, stored, f).stored, code) == Some(i)
  {
    if !Rejects(v, f) {
      var d := Course(f.name, f.instructor, f.semester, f.code);
      assert Submit(v, stored, f).stored == stored + [d];
      FirstMatchAfterAppend(stored, d, code);
    }
  }
}
