# School portal grade book — a Dafny model

The portal is an Express server (`index.js`) over two Firestore collections.
`students` maps a student code to a document with a name, a grade level and a
`grades` map from subject to either a single legacy score or a detailed
record (three tests, mid-term, final). `teachers` maps a teacher code to a
name, a subject and the grade levels taught. Teachers write and delete grades;
students read their own. Both sign in with a code. A one-off route seeds
`students` in batches of 400, and a one-off script (`upload-teachers.js`)
seeds `teachers`. Uploaded files are filtered by extension and sorted into a
folder.

The model is split into modules:

- `Wrappers`: the `Option` type.
- `JsText`: the JavaScript string primitives the handlers use:
  - `String.prototype.trim` over the ECMAScript white-space set;
  - `parseInt` without a radix (white space, sign, `0x` prefix, digits; `NaN` is `None`);
  - `toLowerCase` on ASCII.
- `GradeBook`:
  - the student and teacher documents;
  - the two Firestore writes the handlers rely on, stated as functions:
    - `MergeGrade` is `set({grades: {[key]: v}}, {merge: true})`, which fails on the empty key;
    - `DeleteGradeField` is `update({["grades." + key]: FieldValue.delete()})`;
  - each write handler as a pure function from the collection and the request to the reply and the new collection;
  - the read and sign-in handlers as functions;
  - lemmas that relate the routes.
- `SchoolStore`: the class `SchoolDb`, whose two map fields are the collections and whose methods are the handlers. Write handlers replace `students` by the route function's result. `GetStudentsByGrade` is the snapshot walk that pushes one row per matching document.
- `Uploads`: `path.extname`, the multer `fileFilter` and the `destination` folder choice.
- `StudentSeed`: the `/upload-students` chunk loop.
- `TeacherUpload`: the clean-up and the counting loop of `upload-teachers.js`.

Store behaviour the model assumes:

- The model accepts a document id when it is non-empty and contains no `/`, and treats every other id as one `doc()` throws on, answered by the handler's `catch`. This is a simplification: Firestore itself also accepts some ids with `/` (see "## Left out").
- A key of a map written with `set` must be non-empty (`ValidMapKey`). Firestore refuses the empty field name, so `set` throws.
- An `update` field path segment is accepted when it is non-empty and contains none of `* ~ / [ ]`.
- `set` with merge, under a non-empty key, creates a missing document and replaces only the named entry of `grades`.
- `update` with `FieldValue.delete()` removes the key. On a missing document it fails.
- A `set` without merge replaces the whole document.
- The outcome of each batch commit (`commitOk(k)`) and of each teacher write (`writeOk(k)`) is a parameter. Every other store call succeeds.

## Model

| member | source | states |
|---|---|---|
| JsText.Trim | index.js:363 | the result is no longer than the input and has no white space at either end |
| JsText.TrimEmptyIff | index.js:363 | a string trims to the empty string exactly when it is all white space |
| JsText.TrimStartDropsSpace | index.js:363 | what the leading trim drops is all white space, and what remains is a suffix of the input |
| JsText.TrimEndDropsSpace | index.js:363 | what the trailing trim drops is all white space, and what remains is a prefix of the input |
| JsText.TrimIgnoresPadding | index.js:363 | white space added at either end of a string does not change its trimmed form |
| JsText.ParseIntDecimal | index.js:251 | `parseInt` of the decimal numeral of n, optionally signed, is n (or -n) |
| JsText.ParseIntSkipsSpace | index.js:215 | white space before the number does not change what `parseInt` reads |
| JsText.ParseIntStopsAtNonDigit | index.js:251 | `parseInt` reads the optionally signed digits up to the first non-digit and ignores what follows, except that a lone `0` before `x` starts a hexadecimal numeral |
| JsText.ParseIntNoDigits | index.js:215 | `parseInt` is `NaN` (`None`) when no digit follows the leading white space and the optional sign |
| JsText.ToLowerAscii | index.js:61 | the result has the input's length and no upper-case ASCII letter. A character that is not an upper-case letter is kept; an upper-case letter becomes the lower-case letter at the same place in the alphabet |
| JsText.ToLowerAsciiCaseBlind | index.js:61 | two strings lower-case to the same string exactly when they differ only in ASCII letter case |
| JsText.ToLowerAsciiIdempotent | index.js:61 | lower-casing twice is the same as lower-casing once |
| GradeBook.MergeGrade | index.js:368-378 | the merge-write fails exactly when the key is empty. Otherwise it sets `grades[key]` of that code only. Every other document, every other subject and the name, grade and code fields stay as they were. An unknown code gets a document holding only that entry. |
| GradeBook.DeleteGradeField | index.js:422-424 | the delete-update fails exactly when the document is missing; otherwise it removes the key and keeps everything else |
| GradeBook.DetailedWrite | index.js:354-387 | 400 "Missing data" with the collection unchanged when the code or subject is not truthy. Success exactly when both are truthy, the code is a valid id and the trimmed subject is non-empty; otherwise, past the 400 check, a 500 with nothing changed. On success `grades[trim(subject)]` holds the five components, each absent one 0, and nothing else changes. |
| GradeBook.LegacyWrite | index.js:234-246 | success exactly when the code is present and a valid id and the subject key is non-empty, with `grades[subject]` (untrimmed; an absent subject gives the key "undefined") set to the score; otherwise a 500 with nothing changed |
| GradeBook.GradeDelete | index.js:417-432 | success exactly when the code names an existing document and the key is a valid path segment; the key is then absent and the rest unchanged; otherwise 500 "Failed" with nothing changed |
| GradeBook.GradesLookup | index.js:327-352 | `{}` for a missing or blank code, a code `doc()` refuses, a missing student or a missing `grades` field; otherwise exactly the stored map of the trimmed code |
| GradeBook.GradeLevelCodes | index.js:214-216 | the codes matched by the query are exactly the stored codes whose grade equals `parseInt(level)`; none match when the level does not parse |
| GradeBook.StudentSignIn | index.js:248-278 | signed in exactly when the trimmed code names a student whose grade equals `parseInt(grade)`. The reply carries that student's name and grade and the trimmed code. Otherwise the error is "Invalid code" (no such student), "Wrong grade" (grade mismatch) or "Server error" (`doc()` rejects the code). |
| GradeBook.TeacherSignIn | index.js:159-182 | signed in exactly when the trimmed code names a stored teacher, with that teacher's name, subject and grades; otherwise "Invalid teacher code" or "Server error" |
| GradeBook.DetailedIgnoresSubjectPadding | index.js:363 | the detailed route gives the same reply and collection for a subject padded with white space |
| GradeBook.RoutesSplitPaddedSubject | index.js:238-240 | a padded subject that is not all white space, written through both routes lands under two keys: the legacy score under the padded one, the detailed record under the trimmed one |
| GradeBook.BlankSubjectRejected | index.js:359-385 | a subject made only of white space passes the "Missing data" check, but its trimmed key is empty, so the write fails with a 500 and nothing is stored |
| GradeBook.FetchSeesDetailedWrite | index.js:327-346 | after a detailed write of a subject that is not blank, the student's fetch returns the record under the trimmed subject |
| GradeBook.DeleteUndoesDetailedWrite | index.js:417-424 | deleting the subject a detailed write just stored succeeds and leaves the student's other grades as before that write |
| GradeBook.DeleteAbsentSubject | index.js:421-427 | deleting a subject the student does not have succeeds and changes nothing |
| GradeBook.DeleteIdempotent | index.js:421-427 | a second identical delete gives the same reply and collection as the first |
| GradeBook.DeleteUnknownStudentFails | index.js:428-430 | deleting a grade of an unknown code answers 500 "Failed" and changes nothing |
| SchoolStore.SchoolDb.SaveGradeDetailed | index.js:354-387 | the reply and the new `students` are those of `DetailedWrite`, so a blank trimmed subject is a 500 with nothing stored. `teachers` is untouched and every id stays valid. |
| SchoolStore.SchoolDb.SaveGrade | index.js:234-246 | the reply and the new `students` are those of `LegacyWrite`, so an empty subject is a 500 with nothing stored |
| SchoolStore.SchoolDb.DeleteGrade | index.js:417-432 | the reply and the new `students` are those of `GradeDelete` |
| SchoolStore.SchoolDb.GetStudentGrades | index.js:327-352 | returns `GradesLookup` of the current collection |
| SchoolStore.SchoolDb.GetStudentsByGrade | index.js:209-231 | one row per matching document and no other. Rows have distinct codes. Each row carries the code, the name and the grades (`{}` when absent). On a store whose ids `doc()` accepts, every row's code is such an id. |
| SchoolStore.SchoolDb.SignIn | index.js:248-278 | returns `StudentSignIn` of the current collection |
| SchoolStore.SchoolDb.SignInTeacher | index.js:159-182 | returns `TeacherSignIn` of the current collection |
| Uploads.ExtName | index.js:61 | the extension is empty or a dot followed by no dot and no `/`. It is non-empty exactly when the base name has a dot after its first character and is not `..`, and it is then the base name from its last dot on |
| Uploads.FileFilter | index.js:60-68 | a rejection carries the multer error message; an accepted name has an extension |
| Uploads.FileFilterAcceptsIff | index.js:60-68 | a file is accepted exactly when its base name ends, case-insensitively on ASCII, in one of `.pdf .jpg .jpeg .png .doc .docx` after at least one more character |
| Uploads.FileFilterAcceptsStem | index.js:62-64 | any non-empty stem without `/` followed by an allowed extension is accepted |
| Uploads.FileFilterCaseBlind | index.js:60-68 | two names that differ only in ASCII letter case get the same decision |
| Uploads.ExtNameCaseBlind | index.js:61 | two names that differ only in ASCII letter case have extensions that differ only in case |
| Uploads.UploadFolder | index.js:41-46 | the folder is "documents" exactly when full name, phone and email are all truthy, and "resumes" otherwise |
| StudentSeed.UploadInBatches | index.js:291-306 | "not found" exactly when the list is empty. The writes go up in chunks of at most 400, each the next slice. The chunks laid end to end are the writes uploaded. The reply is the success page exactly when the list is non-empty and `uploaded == total`. The first chunk whose batch does not commit stops the loop with the error page, and the earlier chunks stay in the collection. |
| StudentSeed.UploadStudents | index.js:281-324 | "not found" exactly for an empty seed. Otherwise the collection is the old one with the documents of the uploaded prefix set in order: all of them, in `ceil(n / 400)` chunks, on the success page; on the error page, the chunks before the first one whose batch does not commit. |
| StudentSeed.CommittedChunksPrefix | index.js:292-293 | the committed chunks concatenate, in order, to a prefix of the entry list |
| StudentSeed.BatchProgressFailed | index.js:292-306 | when a chunk does not commit, `uploaded` is 400 times the number of earlier chunks, and those chunks laid end to end are the uploaded prefix |
| GradeBook.ScannedDone | index.js:214-224 | once the walk has visited every code, the rows are the matching students' rows, each code once |
| StudentSeed.BatchProgressDone | index.js:292-306 | when the loop finishes, `uploaded` is the total and the chunks concatenate to the whole list |
| StudentSeed.SeedStoresEntry | index.js:296-303 | with distinct codes, each seeded code holds its entry's record: name trimmed, grade as given, code parsed, no grades |
| StudentSeed.SeedKeepsOthers | index.js:296-303 | seeding leaves every code no entry names as it was |
| StudentSeed.SeedClearsGrades | index.js:298 | seeding without merge wipes any grades stored under a seeded code |
| StudentSeed.SeededStudentSignsIn | index.js:296-303 | a seeded student signs in with their code and their grade level in decimal, and gets the trimmed name |
| TeacherUpload.DropEmpty | upload-teachers.js:37 | the filter keeps exactly the non-empty strings, and the result is no longer than its input |
| TeacherUpload.DropEmptyAppend | upload-teachers.js:37 | filtering distributes over concatenation, so the order is kept |
| TeacherUpload.CleanGrades | upload-teachers.js:37 | cleaned grades are non-empty and trimmed, and there are no more of them than source grades |
| TeacherUpload.CleanGradesMembers | upload-teachers.js:37 | a string is a cleaned grade exactly when it is non-empty and the trimmed form of some source grade |
| TeacherUpload.CleanGradesAppend | upload-teachers.js:37 | cleaning distributes over concatenation, so the cleaned grades keep their relative order |
| TeacherUpload.CleanGradesIdempotent | upload-teachers.js:37 | cleaning a cleaned list changes nothing |
| TeacherUpload.CleanTeacherIdempotent | upload-teachers.js:34-38 | uploading a stored teacher record again stores the same record |
| TeacherUpload.SucceededCount | upload-teachers.js:29-44 | the success count is at most the number of teachers, and equals it exactly when every write succeeded |
| TeacherUpload.SetEachTeacher | upload-teachers.js:32-44 | one `set` per teacher in order. A failed write is skipped and the loop goes on. The counter is the number of successful writes. |
| TeacherUpload.UploadTeachers | upload-teachers.js:29-44 | the `teachers` collection after the script; `uploaded` is the number of successful writes (`SucceededCount`), at most `total`, and `uploaded == total` exactly when every write succeeded |
| TeacherUpload.UploadStoresCleaned | upload-teachers.js:34-38 | a teacher whose write succeeded is stored under its code with name and subject trimmed and grades cleaned, whatever was stored there before, and whatever happened to the other writes |
| TeacherUpload.UploadKeepsFailed | upload-teachers.js:39-41 | a code whose writes all failed keeps its previous document, or stays absent |
| TeacherUpload.UploadedTeacherSignsIn | upload-teachers.js:34-38 | an uploaded teacher signs in and gets trimmed name and subject and a grade list with no empty entry |

## Left out

- Express wiring, page routes, redirects and rendering are not modelled. They have no behaviour beyond forwarding.
- Firebase initialisation, credentials and reading `students.json` are I/O. The seed entries and the teacher list are parameters.
- The applicant, student-application and feedback routes and `/count-students` are presentation or plain appends to other collections.
- Logging is not modelled. That includes the string-concatenated total printed after a detailed save.
- Transient Firestore failures are not modelled: every read, merge-write and delete-update answers as the store assumptions above say. The exceptions are the batch commits of the seed loop and the teacher writes, whose outcomes are parameters.
- Numeric coercion is not modelled:
  - The grade of `/save-grade` and the components of `/save-grade-detailed` are integers.
  - `Number("abc")`, `NaN` and fractional values are not represented.
  - The model's legacy score is an integer, so it cannot hold the `NaN` that `/save-grade` stores when `parseInt(grade)` fails.
- `GradeBook.StudentSignIn`: a `NaN` grade level from `parseInt` is `None`, which never equals a stored grade. Seeded grades are integers, so "Wrong grade" results, as in the source.
- `SchoolStore.SchoolDb.GetStudentsByGrade`: a query on `NaN` matches nothing, because no stored grade is `NaN` in the model. The order of rows follows an arbitrary walk of the codes, not Firestore's snapshot order. The `subject` query parameter is read and unused, as in the source.
- A missing `code` in the sign-in body makes `code.trim()` throw before the `try` of an `async` handler. The rejected promise escapes the handler: Express 5 answers with its default 500, and Express 4 leaves it unhandled and sends no reply. The model takes the code as a string.
- `GradeBook.GradeDelete` requires that a present subject contains no `.`. Firestore splits such a field path into nested fields, which this model does not represent.
- Document ids with `/` are all treated as refused. Firestore accepts an id such as `a/b/c`, with an odd number of segments, as a document in a subcollection. It also drops an empty segment at either end, so `4821/` and `/4821` name the document `4821`; only `//` inside the id is refused. The model has no subcollections, so for such a code it answers through the handler's `catch` where the source reads or writes the nested document: `/signin` with code `a/b/c` gives "Server error" in the model and "Invalid code" in the source, and `/save-grade` with it fails in the model but succeeds in the source. Likewise `/signin` with code `4821/` answers "Server error" in the model where the source signs student `4821` in.
- Ids Firestore reserves (`.`, `..`, `__…__`) and the 1500-byte id limit are not singled out. Field names Firestore reserves (`__…__`) are not singled out either: only the empty key makes `set` throw here.
- `teacher.grades || []` in teacher sign-in has no counterpart: a modelled teacher document always holds a grade list.
- `Uploads.FileFilter` lower-cases ASCII only. No non-ASCII character lower-cases to a letter of an allowed extension, so acceptance is the same.
- Multer's 15 MB limit is not modelled. Nor are the `mkdirSync` call, the unique file name built from the clock and a random number, and the fact that multer sees only the form fields sent before the file.
- `/upload-students` builds each chunk's documents inside the loop. The model builds the writes first (`SeedWrites`) and then commits them chunk by chunk, which has the same effect because building a document cannot fail for the modelled inputs.
- In the same way, `UploadTeachers` cleans each record before the loop (`TeacherWrites`) rather than inside it.
- The hard-coded "112 / 112" success page and the per-chunk progress log are not modelled.
