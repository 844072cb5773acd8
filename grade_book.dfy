/**
 * The grade book kept inside `students/{code}` documents (index.js): the shape
 * of the student and teacher documents, the Firestore behaviour the handlers
 * rely on, and what each grade, fetch and sign-in route does to or reads from
 * the collection, as pure functions of the collection and the request.
 */
module GradeBook {
  import opened Wrappers
  import opened JsText

  /** A subject's entry in `grades`: the legacy single score or the five-part breakdown. */
  datatype GradeValue =
    | Legacy(score: int)
    | Detailed(t1: int, t2: int, t3: int, mid: int, final: int)

  type Grades = map<string, GradeValue>

  /**
   * A `students/{code}` document. Every field may be absent: seeded documents
   * carry no `grades`, and a merge-write to an unknown code creates a document
   * that holds only `grades`. `code` is `None` when absent or `NaN`.
   */
  datatype Student = Student(name: Option<string>, grade: Option<int>, code: Option<int>, grades: Option<Grades>)

  const EmptyDocument := Student(None, None, None, None)

  type Students = map<string, Student>

  /** A `teachers/{code}` document, as upload-teachers.js writes it. */
  datatype Teacher = Teacher(name: string, subject: string, grades: seq<string>)

  type Teachers = map<string, Teacher>

  /** `doc.data().grades || {}`. */
  function GradesOrEmpty(s: Student): Grades {
    s.grades.GetOr(map[])
  }

  /** The grades of document `code`; `{}` when the document or its `grades` field is absent. */
  function GradesAt(students: Students, code: string): Grades {
    if code in students then GradesOrEmpty(students[code]) else map[]
  }

  /** Two documents that agree on every field except `grades`. */
  predicate SameProfile(a: Student, b: Student) {
    a.name == b.name && a.grade == b.grade && a.code == b.code
  }

  /** `after` is `before` with subject `key` of document `code` set to `v`, and nothing else changed. */
  ghost predicate GradeWritten(before: Students, after: Students, code: string, key: string, v: GradeValue) {
    && after.Keys == before.Keys + {code}
    && (forall id :: id in before && id != code ==> after[id] == before[id])
    && GradesAt(after, code) == GradesAt(before, code)[key := v]
    && after[code].grades.Some?
    && (code in before ==> SameProfile(after[code], before[code]))
    && (code !in before ==> after[code] == Student(None, None, None, Some(map[key := v])))
  }

  /** `after` is `before` with subject `key` of the existing document `code` removed, and nothing else changed. */
  ghost predicate GradeRemoved(before: Students, after: Students, code: string, key: string) {
    && code in before
    && after.Keys == before.Keys
    && (forall id :: id in before && id != code ==> after[id] == before[id])
    && GradesAt(after, code) == GradesAt(before, code) - {key}
    && SameProfile(after[code], before[code])
    && after[code].grades.Some? == before[code].grades.Some?
  }

  // ---------------------------------------------------------------------
  // Firestore behaviour the model assumes
  // ---------------------------------------------------------------------

  /** `collection.doc(id)` accepts a non-empty id without '/'; otherwise it throws. */
  predicate ValidDocId(id: string) {
    id != "" && '/' !in id
  }

  /** A segment of a string field path given to `update`: non-empty and free of `*`, `~`, `/`, `[`, `]`. */
  predicate ValidFieldSegment(name: string) {
    name != "" && forall c :: c in name ==> c !in "*~/[]"
  }

  /** A key of a map value written with `set`: Firestore refuses the empty field name. */
  predicate ValidMapKey(key: string) {
    key != ""
  }

  /** The codes of keyed entries are pairwise distinct, as the keys of a JavaScript object are. */
  predicate DistinctCodes<D>(entries: seq<(string, D)>) {
    forall i, j :: 0 <= i < j < |entries| ==> entries[i].0 != entries[j].0
  }

  /** Every document of the collection is addressed by an id `doc()` accepts. */
  predicate WellKeyed<D>(docs: map<string, D>) {
    forall id :: id in docs ==> ValidDocId(id)
  }

  /**
   * `doc(code).set({grades: {[key]: v}}, {merge: true})`: rejected (`None`)
   * when `key` is the empty field name; otherwise creates the document when it
   * is absent and replaces only the entry `grades[key]`.
   */
  function MergeGrade(students: Students, code: string, key: string, v: GradeValue): (r: Option<Students>)
    ensures r.None? <==> !ValidMapKey(key)
    ensures r.Some? ==> GradeWritten(students, r.value, code, key, v)
  {
    if !ValidMapKey(key) then None
    else
      var doc := if code in students then students[code] else EmptyDocument;
      Some(students[code := doc.(grades := Some(GradesOrEmpty(doc)[key := v]))])
  }

  /**
   * `doc(code).update({["grades." + key]: FieldValue.delete()})`: fails
   * (`None`) when the document does not exist; otherwise removes the entry
   * `grades[key]`, whether or not it was there.
   */
  function DeleteGradeField(students: Students, code: string, key: string): (r: Option<Students>)
    ensures r.None? <==> code !in students
    ensures r.Some? ==> GradeRemoved(students, r.value, code, key)
  {
    if code !in students then None
    else
      var doc := students[code];
      Some(students[code := if doc.grades.None? then doc else doc.(grades := Some(doc.grades.value - {key}))])
  }

  // ---------------------------------------------------------------------
  // Requests and replies
  // ---------------------------------------------------------------------

  /** Body of `POST /save-grade-detailed`; an absent component is `None`. */
  datatype DetailedRequest = DetailedRequest(
    studentCode: Option<string>, subject: Option<string>,
    t1: Option<int>, t2: Option<int>, t3: Option<int>, mid: Option<int>, final: Option<int>)

  /** Body of `POST /save-grade`; `grade` is the already parsed score. */
  datatype LegacyRequest = LegacyRequest(studentCode: Option<string>, subject: Option<string>, grade: int)

  /** Body of `POST /delete-grade`. */
  datatype DeleteRequest = DeleteRequest(studentCode: Option<string>, subject: Option<string>)

  /**
   * JSON reply of a grade-writing route: 200 `{success: true}`, 400 `{error}`,
   * or 500 with `{error}` when the route sends one and a body without error
   * text (`{success: false}`, or Firestore's own message) when `None`.
   */
  datatype WriteReply =
    | Success
    | BadRequest(error: string)
    | ServerError(message: Option<string>)

  /** A route's reply and the `students` collection after it. */
  datatype Outcome = Outcome(reply: WriteReply, students: Students)

  /** The property name of a computed key `[f]`: `undefined` becomes "undefined". */
  function PropertyKey(f: Option<string>): string {
    f.GetOr("undefined")
  }

  /** The breakdown `save-grade-detailed` stores: each absent component is 0. */
  function DetailedEntry(req: DetailedRequest): GradeValue {
    Detailed(req.t1.GetOr(0), req.t2.GetOr(0), req.t3.GetOr(0), req.mid.GetOr(0), req.final.GetOr(0))
  }

  // ---------------------------------------------------------------------
  // Grade routes
  // ---------------------------------------------------------------------

  /**
   * `POST /save-grade-detailed`: 400 "Missing data" unless `studentCode` and
   * `subject` are both present and non-empty; otherwise the breakdown is
   * merge-written under the TRIMMED subject of document `studentCode`. A code
   * `doc()` rejects, or a subject that trims to "", makes Firestore throw: 500.
   */
  function DetailedWrite(students: Students, req: DetailedRequest): (out: Outcome)
    ensures !Truthy(req.studentCode) || !Truthy(req.subject) ==>
      out == Outcome(BadRequest("Missing data"), students)
    ensures out.reply == Success <==>
      Truthy(req.studentCode) && Truthy(req.subject) && ValidDocId(req.studentCode.value)
      && ValidMapKey(Trim(req.subject.value))
    ensures Truthy(req.studentCode) && Truthy(req.subject) && out.reply != Success ==>
      out.reply == ServerError(None)
    ensures out.reply != Success ==> out.students == students
    ensures out.reply == Success ==>
      GradeWritten(students, out.students, req.studentCode.value, Trim(req.subject.value), DetailedEntry(req))
    ensures out.reply == Success ==>
      var e := GradesAt(out.students, req.studentCode.value)[Trim(req.subject.value)];
      e.Detailed? && (req.t1.None? ==> e.t1 == 0) && (req.t2.None? ==> e.t2 == 0) && (req.t3.None? ==> e.t3 == 0)
      && (req.mid.None? ==> e.mid == 0) && (req.final.None? ==> e.final == 0)
    ensures WellKeyed(students) ==> WellKeyed(out.students)
  {
    if !Truthy(req.studentCode) || !Truthy(req.subject) then Outcome(BadRequest("Missing data"), students)
    else if !ValidDocId(req.studentCode.value) then Outcome(ServerError(None), students)
    else
      match MergeGrade(students, req.studentCode.value, Trim(req.subject.value), DetailedEntry(req))
      case None => Outcome(ServerError(None), students)
      case Some(after) => Outcome(Success, after)
  }

  /**
   * `POST /save-grade`: no validation; the score is merge-written under the
   * subject exactly as sent. A missing or unusable code makes `doc()` throw,
   * and an empty subject makes `set` throw: 500.
   */
  function LegacyWrite(students: Students, req: LegacyRequest): (out: Outcome)
    ensures out.reply == Success <==>
      req.studentCode.Some? && ValidDocId(req.studentCode.value) && ValidMapKey(PropertyKey(req.subject))
    ensures out.reply != Success ==> out == Outcome(ServerError(None), students)
    ensures out.reply == Success ==>
      GradeWritten(students, out.students, req.studentCode.value, PropertyKey(req.subject), Legacy(req.grade))
    ensures WellKeyed(students) ==> WellKeyed(out.students)
  {
    if req.studentCode.None? || !ValidDocId(req.studentCode.value) then Outcome(ServerError(None), students)
    else
      match MergeGrade(students, req.studentCode.value, PropertyKey(req.subject), Legacy(req.grade))
      case None => Outcome(ServerError(None), students)
      case Some(after) => Outcome(Success, after)
  }

  /**
   * `POST /delete-grade`: `update` with `FieldValue.delete()` on
   * `grades.<subject>`. Any failure (no code, no such document, an unusable
   * field path) is 500 "Failed" and changes nothing. A subject containing '.'
   * would address a nested field and is outside the model.
   */
  function GradeDelete(students: Students, req: DeleteRequest): (out: Outcome)
    requires req.subject.Some? ==> '.' !in req.subject.value
    ensures out.reply == Success <==>
      req.studentCode.Some? && ValidDocId(req.studentCode.value) && req.studentCode.value in students
      && ValidFieldSegment(PropertyKey(req.subject))
    ensures out.reply != Success ==> out == Outcome(ServerError(Some("Failed")), students)
    ensures out.reply == Success ==>
      GradeRemoved(students, out.students, req.studentCode.value, PropertyKey(req.subject))
    ensures WellKeyed(students) ==> WellKeyed(out.students)
  {
    var key := PropertyKey(req.subject);
    if req.studentCode.None? || !ValidDocId(req.studentCode.value) || !ValidFieldSegment(key) then
      Outcome(ServerError(Some("Failed")), students)
    else
      match DeleteGradeField(students, req.studentCode.value, key)
      case None => Outcome(ServerError(Some("Failed")), students)
      case Some(after) => Outcome(Success, after)
  }

  /**
   * `GET /get-student-grades?code=`: the stored `grades` of the document named
   * by the trimmed code, and `{}` on every miss (no code, a blank code, an id
   * `doc()` rejects, no such student, no `grades` field).
   */
  function GradesLookup(students: Students, code: Option<string>): (g: Grades)
    ensures code.None? || Trim(code.value) == "" ==> g == map[]
    ensures code.Some? && Trim(code.value) !in students ==> g == map[]
    ensures code.Some? && Trim(code.value) != "" && !ValidDocId(Trim(code.value)) ==> g == map[]
    ensures code.Some? && ValidDocId(Trim(code.value)) ==> g == GradesAt(students, Trim(code.value))
    ensures g != map[] ==>
      code.Some? && Trim(code.value) in students && students[Trim(code.value)].grades == Some(g)
  {
    if code.None? then map[]
    else
      var c := Trim(code.value);
      if c == "" || !ValidDocId(c) || c !in students then map[]
      else
        var doc := students[c];
        if doc.grades.None? then map[] else doc.grades.value
  }

  /**
   * The codes `where("grade", "==", wanted)` matches, `wanted` being
   * `parseInt(level)`; none when it is `NaN`, which no stored grade equals.
   */
  function GradeLevelCodes(students: Students, wanted: Option<int>): (codes: set<string>)
    ensures codes <= students.Keys
    ensures wanted.None? ==> codes == {}
    ensures forall c :: c in codes ==> students[c].grade.Some? && students[c].grade == wanted
    ensures forall c :: c in students && wanted.Some? && students[c].grade == wanted ==> c in codes
  {
    set c | c in students && wanted.Some? && students[c].grade == wanted
  }

  /** One element of the `/get-students-grade` reply. */
  datatype StudentRow = StudentRow(code: string, name: Option<string>, grades: Grades)

  function RowOf(students: Students, c: string): StudentRow
    requires c in students
  {
    StudentRow(c, students[c].name, GradesOrEmpty(students[c]))
  }

  /**
   * Progress of the walk over the snapshot: the codes still `pending` are
   * unvisited; every row so far is a distinct matching student's row, and
   * each visited match has a row (`at` says where).
   */
  ghost predicate Scanned(students: Students, wanted: Option<int>, pending: set<string>,
                          rows: seq<StudentRow>, at: map<string, nat>)
  {
    var codes := GradeLevelCodes(students, wanted);
    pending <= students.Keys
    && (forall i :: 0 <= i < |rows| ==>
          rows[i].code in codes && rows[i].code !in pending && rows[i].code in students
          && rows[i] == RowOf(students, rows[i].code))
    && (forall x :: x in codes && x !in pending ==> x in at && at[x] < |rows| && rows[at[x]].code == x)
    && (forall i, j :: 0 <= i < j < |rows| ==> rows[i].code != rows[j].code)
  }

  lemma ScannedStep(students: Students, wanted: Option<int>, pending: set<string>,
                    rows: seq<StudentRow>, at: map<string, nat>, c: string)
    requires Scanned(students, wanted, pending, rows, at) && c in pending
    ensures c in students
    ensures wanted.Some? && students[c].grade == wanted ==>
      Scanned(students, wanted, pending - {c}, rows + [RowOf(students, c)], at[c := |rows|])
    ensures !(wanted.Some? && students[c].grade == wanted) ==>
      Scanned(students, wanted, pending - {c}, rows, at)
  {
    var codes := GradeLevelCodes(students, wanted);
    assert c in codes <==> wanted.Some? && students[c].grade == wanted;
    if c in codes {
      var rows' := rows + [RowOf(students, c)];
      assert forall i :: 0 <= i < |rows| ==> rows'[i] == rows[i];
    }
  }

  lemma ScannedDone(students: Students, wanted: Option<int>, rows: seq<StudentRow>, at: map<string, nat>)
    requires Scanned(students, wanted, {}, rows, at)
    ensures forall i :: 0 <= i < |rows| ==> rows[i].code in GradeLevelCodes(students, wanted)
    ensures forall c :: c in GradeLevelCodes(students, wanted) ==> exists i :: 0 <= i < |rows| && rows[i].code == c
    ensures forall i :: 0 <= i < |rows| ==> rows[i].code in students && rows[i] == RowOf(students, rows[i].code)
    ensures forall i, j :: 0 <= i < j < |rows| ==> rows[i].code != rows[j].code
  {
    forall x | x in GradeLevelCodes(students, wanted)
      ensures exists i :: 0 <= i < |rows| && rows[i].code == x
    {
      assert rows[at[x]].code == x;
    }
  }

  // ---------------------------------------------------------------------
  // Sign-in routes
  // ---------------------------------------------------------------------

  /** JSON reply of `POST /signin`. */
  datatype SignInReply =
    | SignedIn(name: Option<string>, grade: int, code: string)
    | SignInFailed(error: string)

  /**
   * `POST /signin`: the trimmed code must name a student whose `grade` is
   * `parseInt(grade)`; "Invalid code" when there is no such student, "Wrong
   * grade" on a mismatch, "Server error" when `doc()` rejects the code.
   */
  function StudentSignIn(students: Students, code: string, grade: string): (r: SignInReply)
    ensures r.SignedIn? <==>
      ValidDocId(Trim(code)) && Trim(code) in students
      && students[Trim(code)].grade.Some? && students[Trim(code)].grade == ParseInt(grade)
    ensures r.SignedIn? ==>
      r.code == Trim(code) && r.name == students[Trim(code)].name && ParseInt(grade) == Some(r.grade)
    ensures r == SignInFailed("Invalid code") <==> ValidDocId(Trim(code)) && Trim(code) !in students
    ensures r == SignInFailed("Server error") <==> !ValidDocId(Trim(code))
    ensures r.SignInFailed? ==> r.error in {"Invalid code", "Wrong grade", "Server error"}
  {
    var c := Trim(code);
    if !ValidDocId(c) then SignInFailed("Server error")
    else if c !in students then SignInFailed("Invalid code")
    else
      var wanted := ParseInt(grade);
      // `===` between the stored number and `NaN` (or an absent grade) is false.
      if students[c].grade.Some? && students[c].grade == wanted then SignedIn(students[c].name, students[c].grade.value, c)
      else SignInFailed("Wrong grade")
  }

  /** JSON reply of `POST /signin.teacher`. */
  datatype TeacherSignInReply =
    | TeacherSignedIn(name: string, subject: string, grades: seq<string>, code: string)
    | TeacherSignInFailed(error: string)

  /**
   * `POST /signin.teacher`: the stored teacher under the trimmed code;
   * "Invalid teacher code" when there is none, "Server error" when `doc()`
   * rejects the code.
   */
  function TeacherSignIn(teachers: Teachers, code: string): (r: TeacherSignInReply)
    ensures r.TeacherSignedIn? <==> ValidDocId(Trim(code)) && Trim(code) in teachers
    ensures r.TeacherSignedIn? ==>
      var t := teachers[Trim(code)];
      r.name == t.name && r.subject == t.subject && r.grades == t.grades && r.code == Trim(code)
    ensures r.TeacherSignInFailed? ==>
      r.error == if ValidDocId(Trim(code)) then "Invalid teacher code" else "Server error"
  {
    var c := Trim(code);
    if !ValidDocId(c) then TeacherSignInFailed("Server error")
    else if c !in teachers then TeacherSignInFailed("Invalid teacher code")
    else TeacherSignedIn(teachers[c].name, teachers[c].subject, teachers[c].grades, c)
  }

  // ---------------------------------------------------------------------
  // Properties relating the routes
  // ---------------------------------------------------------------------

  /**
   * `save-grade-detailed` trims the subject: padding it with white space
   * addresses the same key and leaves the same collection.
   */
  lemma DetailedIgnoresSubjectPadding(students: Students, req: DetailedRequest, p: string, q: string)
    requires req.subject.Some? && req.subject.value != ""
    requires AllSpace(p) && AllSpace(q)
    ensures DetailedWrite(students, req.(subject := Some(p + req.subject.value + q))) == DetailedWrite(students, req)
  {
    TrimIgnoresPadding(p, req.subject.value, q);
  }

  /**
   * `save-grade` keeps the subject untrimmed, so a padded subject written by
   * both routes ends up under two keys: the padded one holds the legacy score,
   * the trimmed one the breakdown.
   */
  lemma RoutesSplitPaddedSubject(students: Students, code: string, s: string, score: int, req: DetailedRequest)
    requires ValidDocId(code) && Trim(s) != "" && Trim(s) != s
    requires req.studentCode == Some(code) && req.subject == Some(s)
    ensures
      var after := DetailedWrite(LegacyWrite(students, LegacyRequest(Some(code), Some(s), score)).students, req).students;
      GradesAt(after, code)[s] == Legacy(score) && GradesAt(after, code)[Trim(s)] == DetailedEntry(req)
  {
  }

  /**
   * A whitespace-only subject passes the presence check (it is tested before
   * trimming), but trims to the empty field name, which Firestore refuses:
   * 500 and nothing stored.
   */
  lemma BlankSubjectRejected(students: Students, req: DetailedRequest)
    requires Truthy(req.studentCode) && ValidDocId(req.studentCode.value)
    requires Truthy(req.subject) && AllSpace(req.subject.value)
    ensures DetailedWrite(students, req) == Outcome(ServerError(None), students)
  {
    TrimEmptyIff(req.subject.value);
  }

  /**
   * A saved breakdown is what the student portal then fetches under the
   * trimmed subject, when the code carries no surrounding white space.
   */
  lemma FetchSeesDetailedWrite(students: Students, req: DetailedRequest)
    requires Truthy(req.studentCode) && ValidDocId(req.studentCode.value) && Truthy(req.subject)
    requires Trim(req.subject.value) != "" && Trim(req.studentCode.value) == req.studentCode.value
    ensures
      var g := GradesLookup(DetailedWrite(students, req).students, req.studentCode);
      Trim(req.subject.value) in g && g[Trim(req.subject.value)] == DetailedEntry(req)
  {
  }

  /**
   * Deleting the trimmed subject right after saving it leaves the student's
   * other subjects exactly as they were before the save, and the subject gone.
   */
  lemma DeleteUndoesDetailedWrite(students: Students, req: DetailedRequest)
    requires Truthy(req.studentCode) && ValidDocId(req.studentCode.value) && Truthy(req.subject)
    requires '.' !in Trim(req.subject.value) && ValidFieldSegment(Trim(req.subject.value))
    ensures
      var code, key := req.studentCode.value, Trim(req.subject.value);
      var out := GradeDelete(DetailedWrite(students, req).students, DeleteRequest(Some(code), Some(key)));
      out.reply == Success && GradesAt(out.students, code) == GradesAt(students, code) - {key}
  {
    var code, key := req.studentCode.value, Trim(req.subject.value);
    var saved := DetailedWrite(students, req).students;
    var g := GradesAt(students, code);
    assert GradesAt(saved, code) == g[key := DetailedEntry(req)];
    assert g[key := DetailedEntry(req)] - {key} == g - {key};
  }

  /** Deleting a subject that is not there succeeds and changes nothing. */
  lemma DeleteAbsentSubject(students: Students, req: DeleteRequest)
    requires req.subject.Some? ==> '.' !in req.subject.value
    requires req.studentCode.Some? && ValidDocId(req.studentCode.value) && req.studentCode.value in students
    requires ValidFieldSegment(PropertyKey(req.subject))
    requires PropertyKey(req.subject) !in GradesAt(students, req.studentCode.value)
    ensures GradeDelete(students, req) == Outcome(Success, students)
  {
    var code, key := req.studentCode.value, PropertyKey(req.subject);
    var doc := students[code];
    if doc.grades.Some? {
      assert doc.grades.value - {key} == doc.grades.value;
      assert doc.(grades := Some(doc.grades.value - {key})) == doc;
    }
    assert students[code := doc] == students;
  }

  /** Deleting is idempotent: a second identical delete changes nothing more. */
  lemma DeleteIdempotent(students: Students, req: DeleteRequest)
    requires req.subject.Some? ==> '.' !in req.subject.value
    requires GradeDelete(students, req).reply == Success
    ensures GradeDelete(GradeDelete(students, req).students, req) == GradeDelete(students, req)
  {
    var once := GradeDelete(students, req).students;
    DeleteAbsentSubject(once, req);
  }

  /** Deleting for a student code with no document fails with "Failed" and changes nothing. */
  lemma DeleteUnknownStudentFails(students: Students, req: DeleteRequest)
    requires req.subject.Some? ==> '.' !in req.subject.value
    requires req.studentCode.Some? && req.studentCode.value !in students
    ensures GradeDelete(students, req) == Outcome(ServerError(Some("Failed")), students)
  {
  }
}
