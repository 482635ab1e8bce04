# Course catalog: a Dafny model

The repository is a small Flask course-catalog application that exists in
five near-identical entry points (`app.py`, `app2.py`, `app3.py`,
`app_jaeger.py`, `jaeger_trail.py`). They differ in tracing and logging
wiring, and in one piece of behaviour: how a submitted course is validated.
This project models the logic they share:

- **The catalog file** `course_catalog.json` (`CourseStore.Store`, in
  `course_store.dfy`): a class with a `fileExists` flag and the list of
  records the file holds. `Load` is `load_courses`: a missing file reads
  as the empty list. `Save` is `save_courses`: it re-reads the list,
  appends one record at the end and rewrites the whole file, creating it
  if it was missing.
- **Lookup** (`CatalogService.FirstMatch`): the `next(...)` generator in
  `course_details` stops at the first record, in stored order, whose `code`
  equals the requested code. A record whose code is `null` never matches.
- **Validation** in two variants (`CourseData.Variant`):
  - `Strict` (`app.py`, `app_jaeger.py`, `jaeger_trail.py`) requires all
    four fields. It collects the labels of the blank ones by successive
    appends (`CatalogService.CollectMissing`), in the order Course Name,
    Instructor, Semester, Course Code.
  - `Lax` (`app2.py`, `app3.py`) requires only the name and the
    instructor. Semester and code are stored as submitted, even when
    absent or empty.
  - In both variants a field is blank when it is absent or the empty
    string (`CourseData.Blank`, Python's `not x`).
- **The route handlers** (`routes.dfy`): `CourseCatalog`, `CourseDetails`
  and `AddCourse` work over a `Store` passed in, and return a
  `CourseData.Outcome`. An outcome is either `Render(view, data)` or
  `Redirect(page, Notice(category, text))`, where the notice is the one
  message the handler flashes.
- **The effect of a submission** (`CatalogService.Submit`): the stored list
  and the outcome after a POST, as a function. `Routes.AddCourse` is proved
  to follow it, and the lemmas about appending, ordering and lookup are
  stated on it.

Per file, the modelled lines are:

| file | load | save | catalog | lookup | validation | add |
|---|---|---|---|---|---|---|
| app.py | 18-23 | 26-31 | 39-42 | 45-52 | 65-79 (Strict) | 82-90 |
| app2.py | 31-36 | 38-43 | 50-55 | 57-66 | 76-79 (Lax) | 81-88 |
| app3.py | 45-50 | 52-57 | 64-70 | 72-83 | 94-98 (Lax) | 101-110 |
| app_jaeger.py | 41-46 | 48-55 | 62-67 | 69-78 | 90-104 (Strict) | 107-115 |
| jaeger_trail.py | 36-41 | 44-49 | 60-66 | 69-80 | 94-108 (Strict) | 111-120 |

`app2.py:76` and `app3.py:94` check only the name and the instructor, so
a course with no semester or no code is stored. The three strict files
check all four fields.

`course_details` tests `if not course:`. A record that matched has a
`code` key, so it is a non-empty dict and always truthy. The only way to
reach the redirect is therefore to have no match, and that is how the
model treats it.

## Model

| member | source | states |
|---|---|---|
| `CourseStore.Store.Load` | app.py:18-23 | a missing catalog file reads as the empty list; an existing one yields exactly its records |
| `CourseStore.Store.Save` | app.py:26-31 | the stored list becomes the previously stored list (empty if the file was missing) with the new record appended at the end; earlier records keep their values and order, and the file exists afterwards |
| `Routes.CourseCatalog` | app.py:39-42 | the catalog view is rendered with the stored list as it is, with no filtering or reordering, and with the empty list when the file is missing |
| `CatalogService.FirstMatch` | app.py:48 | the lookup returns the first position, in stored order, whose code equals the requested code, and returns nothing exactly when no record's code equals it |
| `Routes.CourseDetails` | app.py:45-52 | the detail view is rendered if and only if some record carries the code, and then with the first such record; otherwise the result is an "error" notice `No course found with code '<code>'.` and a redirect to the catalog |
| `CatalogService.FirstMatchAfterAppend` | app_jaeger.py:73 | appending a record never changes an existing match, and the appended record is found exactly when no earlier record carries its code |
| `CatalogService.EarlierDuplicateShadows` | app3.py:76 | once a code has a match, any later submission leaves that match where it is, so an earlier duplicate shadows later ones |
| `CatalogService.AddedCourseIsFound` | jaeger_trail.py:74 | an accepted course whose code no earlier record carries is what the lookup by that code finds, at the end of the list |
| `CatalogService.CollectMissing` | app.py:65-73 | the appended labels are exactly those of the absent or empty fields, with no other label, in the order Course Name, Instructor, Semester, Course Code |
| `CatalogService.MissingLabels` | app_jaeger.py:90-98 | the missing-field list holds exactly the labels of the blank fields in the fixed order, and it is empty exactly when all four fields are filled |
| `CatalogService.ListsMissingUnique` | jaeger_trail.py:94-102 | "exactly the blank fields' labels, in label order" determines the missing-field list completely: two lists that both meet it are equal |
| `CatalogService.Rejects` | app2.py:76-79 | a submission is turned away exactly when the name or the instructor is absent or empty, or, in the strict variant, when the semester or the code is |
| `CatalogService.Submit` | app.py:76-90 | a rejection keeps the stored list unchanged and a success appends exactly one record holding the four submitted values, with the earlier records as a prefix; the result is always a redirect, to the catalog with a "success" notice exactly when the submission was accepted |
| `CatalogService.StrictRejectionNamesBlankFields` | app_jaeger.py:101-104 | in the strict variant any blank field causes a rejection whose notice names that field's label |
| `CatalogService.StrictRejectionListsOnlyBlankFields` | jaeger_trail.py:105-108 | every label in the strict notice's list belongs to a blank field, and no label is listed twice |
| `CatalogService.AcceptedNoticeNamesCourse` | app3.py:109-110 | an accepted submission has a non-empty name, and the result is a redirect to the catalog with the notice `Course '<name>' added successfully!`, which names the course |
| `CatalogService.SubmitAllAppendsAccepted` | app2.py:81-86 | after any run of submissions the stored list is the old list followed by the records of the accepted submissions, in submission order: the catalog is append-only |
| `Routes.AddCourse` | app.py:55-92 | GET renders the empty form and leaves the file alone. On a rejected POST the file is untouched and the result redirects to the form with the variant's notice. On an accepted POST the file exists and holds what `Submit` says, and the result is `Submit`'s outcome |
| `CourseData.Join` | app.py:78 | Python's `', '.join`: the joined string is empty for no parts, begins with the first part and ends with the last |
| `CourseData.JoinMentionsEachPart` | app_jaeger.py:103 | every label passed to `', '.join` can be read back out of the joined string |
| `CourseData.RequiredFieldsText` | jaeger_trail.py:107 | the strict notice `Error: The following fields are required: <labels joined by ", ">.` names every label in the list it is built from |
| `CourseData.NotFoundText` | app.py:50 | the not-found notice `No course found with code '<code>'.` quotes the requested code, right after the opening quote |
| `CourseData.AddedText` | app.py:89 | the success notice `Course '<name>' added successfully!` quotes the submitted course name, right after the opening quote |
| `CatalogService.RejectionText` | app2.py:78 | the notice a rejected submission flashes: in the lax variant the fixed text `Error: Course name and instructor are required.` (the constant `CourseData.NameAndInstructorRequiredText`); in the strict variant the required-fields notice, which names every blank field |

## Left out

- Flask routing, `render_template`, `url_for`, sessions and `flash`. Each
  handler returns an `Outcome` value instead. A flashed message is the
  `Notice` inside a `Redirect`.
- The index route `/`: it renders a static page and touches no data.
- File I/O and JSON encoding and decoding. The file is a flag and a list
  of records. A malformed file, which makes `json.load` raise, is not
  modelled. Nor are write failures such as a full disk or missing
  permissions, which propagate as request failures.
- Stored values other than strings and `null`. A hand-edited file could
  hold numbers or nested objects; this code never writes them.
- Records without a `code` key, on which the lookup raises `KeyError`. The
  `Course` datatype always has a `code` field, which may be absent
  (`None`).
- OpenTelemetry setup, spans and span attributes, and all logging. They
  are external sinks and do not affect any result.
- The `time.time()` processing-time measurements in `jaeger_trail.py`.
  These are wall-clock floating-point values, passed only to logging and
  to the template.
- Concurrent requests. Two interleaved read-modify-write saves can lose a
  record. The code has no coordination, and the model runs one request at
  a time.
- `app.run` and the server bootstrap.
