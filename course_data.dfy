/**
 * Values shared by the course store, the catalog service and the routes:
 * course records, form submissions, flash notices, handler outcomes, and
 * the text of every notice the application flashes.
 */
module CourseData {

  datatype Option<+T> = None | Some(value: T)

  /** A form value or a stored JSON value: `None` is an absent form field or `null`. */
  type Field = Option<string>

  /** Python's `not x` on a form value: the value is absent or the empty string. */
  predicate Blank(x: Field) {
    x.None? || x.value == ""
  }

  /** One object of the JSON array in course_catalog.json. */
  datatype Course = Course(name: Field, instructor: Field, semester: Field, code: Field)

  /** The four values `request.form.get` yields for a POST to /add_course. */
  datatype Form = Form(name: Field, instructor: Field, semester: Field, code: Field)

  /**
   * Strict requires all four fields (app.py, app_jaeger.py, jaeger_trail.py);
   * Lax requires only the name and the instructor (app2.py, app3.py).
   */
  datatype Variant = Strict | Lax

  /** The flash category: flashed as "error" or "success". */
  datatype Category = Error | Success

  datatype Notice = Notice(category: Category, text: string)

  /** Templates: course_catalog.html, course_details.html, add_course.html. */
  datatype View = CatalogView | DetailsView | AddCourseView

  /** Redirect targets: `url_for('course_catalog')` and `url_for('add_course')`. */
  datatype Page = CatalogPage | AddCoursePage

  /** What a template is rendered with. */
  datatype ViewData = NoData | CourseList(courses: seq<Course>) | OneCourse(course: Course)

  /** What a route handler returns: a rendered view, or a redirect carrying one flash notice. */
  datatype Outcome = Render(view: View, data: ViewData) | Redirect(target: Page, notice: Notice)

  /** Python's `sep.join(parts)`: it begins with the first part and ends with the last. */
  function Join(sep: string, parts: seq<string>): (r: string)
    ensures |parts| == 0 ==> r == ""
    ensures |parts| > 0 ==> |parts[0]| <= |r| && r[..|parts[0]|] == parts[0]
    ensures |parts| > 0 ==>
      var last := parts[|parts| - 1];
      |last| <= |r| && r[|r| - |last|..] == last
  {
    if |parts| == 0 then ""
    else if |parts| == 1 then parts[0]
    else
      var rest := Join(sep, parts[1..]);
      assert parts[1..][|parts[1..]| - 1] == parts[|parts| - 1];
      parts[0] + sep + rest
  }

  /** `x` occurs in `s` as a contiguous piece starting at position `p`. */
  ghost predicate OccursAt(x: string, s: string, p: int) {
    0 <= p <= |s| - |x| && s[p..p + |x|] == x
  }

  /** `x` occurs in `s` as a contiguous piece. */
  ghost predicate Occurs(x: string, s: string) {
    exists p :: OccursAt(x, s, p)
  }

  /** What occurs in `s` still occurs once text is put before and after it. */
  lemma OccursWithin(xs: seq<string>, before: string, s: string, after: string)
    requires forall i :: 0 <= i < |xs| ==> Occurs(xs[i], s)
    ensures forall i :: 0 <= i < |xs| ==> Occurs(xs[i], before + s + after)
  {
    forall i | 0 <= i < |xs| ensures Occurs(xs[i], before + s + after) {
      var x := xs[i];
      var p :| OccursAt(x, s, p);
      assert (before + s + after)[|before| + p..|before| + p + |x|] == s[p..p + |x|];
      assert OccursAt(x, before + s + after, |before| + p);
    }
  }

  /** Every joined part can be read back out of the joined string. */
  lemma {:induction false} JoinMentionsEachPart(sep: string, parts: seq<string>)
    ensures forall i :: 0 <= i < |parts| ==> Occurs(parts[i], Join(sep, parts))
  {
    if |parts| > 0 {
      var joined := Join(sep, parts);
      assert OccursAt(parts[0], joined, 0);
      if |parts| > 1 {
        var rest := Join(sep, parts[1..]);
        JoinMentionsEachPart(sep, parts[1..]);
        OccursWithin(parts[1..], parts[0] + sep, rest, "");
        assert joined == parts[0] + sep + rest + "";
        forall i | 1 <= i < |parts| ensures Occurs(parts[i], joined) {
          assert parts[i] == parts[1..][i - 1];
        }
      }
    }
  }

  /** The notice `course_details` flashes for an unknown code: it quotes the code. */
  function NotFoundText(code: string): (r: string)
    ensures |r| == |code| + 29 && OccursAt(code, r, 27)
  {
    "No course found with code '" + code + "'."
  }

  /** The notice the strict variant flashes: it names every field in `missing`. */
  function RequiredFieldsText(missing: seq<string>): (r: string)
    ensures forall i :: 0 <= i < |missing| ==> Occurs(missing[i], r)
  {
    var joined := Join(", ", missing);
    JoinMentionsEachPart(", ", missing);
    OccursWithin(missing, "Error: The following fields are required: ", joined, ".");
    "Error: The following fields are required: " + joined + "."
  }

  /** The fixed notice the lax variant flashes. */
  const NameAndInstructorRequiredText: string := "Error: Course name and instructor are required."

  /** The notice flashed after a successful add: it quotes the course name. */
  function AddedText(name: string): (r: string)
    ensures |r| == |name| + 29 && OccursAt(name, r, 8)
  {
    "Course '" + name + "' added successfully!"
  }
}
