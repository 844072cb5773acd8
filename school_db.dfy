/**
 * The Firestore database the portal's handlers share (index.js): the
 * `students` and `teachers` collections as map fields of one object, and the
 * grade, fetch and sign-in handlers as its methods. Each write handler
 * replaces `students` by the route's functional update in GradeBook.
 */
module SchoolStore {
  import opened Wrappers
  import opened JsText
  import opened GradeBook

  class SchoolDb {
    var students: Students
    var teachers: Teachers

    /** Every stored document sits under an id that `doc()` accepts. */
    ghost predicate Valid()
      reads this
    {
      WellKeyed(students) && WellKeyed(teachers)
    }

    constructor ()
      ensures Valid() && students == map[] && teachers == map[]
    {
      students, teachers := map[], map[];
    }

    /** `POST /save-grade-detailed`. */
    method SaveGradeDetailed(req: DetailedRequest) returns (reply: WriteReply)
      requires Valid()
      modifies this
      ensures Valid()
      ensures Outcome(reply, students) == DetailedWrite(old(students), req)
      ensures teachers == old(teachers)
    {
      var out := DetailedWrite(students, req);
      reply, students := out.reply, out.students;
    }

    /** `POST /save-grade`. */
    method SaveGrade(req: LegacyRequest) returns (reply: WriteReply)
      requires Valid()
      modifies this
      ensures Valid()
      ensures Outcome(reply, students) == LegacyWrite(old(students), req)
      ensures teachers == old(teachers)
    {
      var out := LegacyWrite(students, req);
      reply, students := out.reply, out.students;
    }

    /** `POST /delete-grade`. */
    method DeleteGrade(req: DeleteRequest) returns (reply: WriteReply)
      requires Valid()
      requires req.subject.Some? ==> '.' !in req.subject.value
      modifies this
      ensures Valid()
      ensures Outcome(reply, students) == GradeDelete(old(students), req)
      ensures teachers == old(teachers)
    {
      var out := GradeDelete(students, req);
      reply, students := out.reply, out.students;
    }

    /** `GET /get-student-grades?code=`: the reply's `grades`. */
    method GetStudentGrades(code: Option<string>) returns (grades: Grades)
      ensures grades == GradesLookup(students, code)
    {
      grades := GradesLookup(students, code);
    }

    /**
     * `GET /get-students-grade?grade=`: one row per student whose `grade`
     * equals `parseInt(level)`, each code once, pushed as the snapshot is walked.
     * Every row's code is one a client can pass back to `doc()`.
     */
    method GetStudentsByGrade(level: string) returns (rows: seq<StudentRow>)
      requires Valid()
      ensures forall i :: 0 <= i < |rows| ==> ValidDocId(rows[i].code)
      ensures forall i :: 0 <= i < |rows| ==> rows[i].code in GradeLevelCodes(students, ParseInt(level))
      ensures forall c :: c in GradeLevelCodes(students, ParseInt(level)) ==> exists i :: 0 <= i < |rows| && rows[i].code == c
      ensures forall i :: 0 <= i < |rows| ==> rows[i].code in students && rows[i] == RowOf(students, rows[i].code)
      ensures forall i, j :: 0 <= i < j < |rows| ==> rows[i].code != rows[j].code
    {
      var all := students;
      var wanted := ParseInt(level);
      rows := [];
      var pending := all.Keys;
      ghost var at: map<string, nat> := map[];
      while pending != {}
        invariant Scanned(all, wanted, pending, rows, at)
        decreases pending
      {
        var c :| c in pending;
        ScannedStep(all, wanted, pending, rows, at, c);
        var doc := all[c];
        if wanted.Some? && doc.grade == wanted {
          at := at[c := |rows|];
          rows := rows + [StudentRow(c, doc.name, GradesOrEmpty(doc))];
        }
        pending := pending - {c};
      }
      ScannedDone(all, wanted, rows, at);
    }

    /** `POST /signin`. */
    method SignIn(code: string, grade: string) returns (reply: SignInReply)
      ensures reply == StudentSignIn(students, code, grade)
    {
      reply := StudentSignIn(students, code, grade);
    }

    /** `POST /signin.teacher`. */
    method SignInTeacher(code: string) returns (reply: TeacherSignInReply)
      ensures reply == TeacherSignIn(teachers, code)
    {
      reply := TeacherSignIn(teachers, code);
    }
  }
}
