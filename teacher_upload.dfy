/**
 * upload-teachers.js: the one-off script that writes the teacher list to the
 * `teachers` collection, one awaited `set` per teacher, cleaning each record
 * on the way and counting the writes that succeed.
 */
module TeacherUpload {
  import opened JsText
  import opened GradeBook
  import opened SchoolStore

  /** One value of the script's teacher list, before cleaning. */
  datatype TeacherData = TeacherData(name: string, subject: string, grades: seq<string>)

  /** `[code, data]`, one element of `Object.entries(teachers)`. */
  type TeacherEntry = (string, TeacherData)

  /** `s.map(f)`. */
  function MapSeq<A, B>(f: A -> B, s: seq<A>): (r: seq<B>)
    ensures |r| == |s| && forall k :: 0 <= k < |s| ==> r[k] == f(s[k])
  {
    seq(|s|, k requires 0 <= k < |s| => f(s[k]))
  }

  lemma MapSeqAppend<A, B>(f: A -> B, a: seq<A>, b: seq<A>)
    ensures MapSeq(f, a + b) == MapSeq(f, a) + MapSeq(f, b)
  {
    var m := MapSeq(f, a + b);
    forall k | 0 <= k < |a + b|
      ensures m[k] == (MapSeq(f, a) + MapSeq(f, b))[k]
    {
      if k < |a| {
        assert (a + b)[k] == a[k];
      } else {
        assert (a + b)[k] == b[k - |a|];
      }
    }
  }

  /** `gs.map(g => g.trim())`. */
  function TrimAll(gs: seq<string>): (r: seq<string>)
    ensures |r| == |gs| && forall k :: 0 <= k < |gs| ==> r[k] == Trim(gs[k])
  {
    MapSeq(Trim, gs)
  }

  /** `gs.filter(g => g !== "")`: the non-empty strings, in their order. */
  function DropEmpty(gs: seq<string>): (r: seq<string>)
    ensures |r| <= |gs|
    ensures forall k :: 0 <= k < |r| ==> r[k] != ""
    ensures forall x :: x in r <==> x in gs && x != ""
  {
    if gs == [] then []
    else
      var rest := DropEmpty(gs[..|gs| - 1]);
      var last := gs[|gs| - 1];
      assert gs == gs[..|gs| - 1] + [last];
      if last == "" then rest else rest + [last]
  }

  /** Filtering distributes over concatenation, so it keeps the relative order of what it keeps. */
  lemma {:induction false} DropEmptyAppend(a: seq<string>, b: seq<string>)
    ensures DropEmpty(a + b) == DropEmpty(a) + DropEmpty(b)
  {
    if b == [] {
      assert a + b == a;
    } else {
      assert (a + b)[..|a + b| - 1] == a + b[..|b| - 1];
      DropEmptyAppend(a, b[..|b| - 1]);
    }
  }

  /** A list with no empty string passes the filter unchanged. */
  lemma {:induction false} DropEmptyKeepsNonEmpty(gs: seq<string>)
    requires forall k :: 0 <= k < |gs| ==> gs[k] != ""
    ensures DropEmpty(gs) == gs
  {
    if gs != [] {
      DropEmptyKeepsNonEmpty(gs[..|gs| - 1]);
      assert gs == gs[..|gs| - 1] + [gs[|gs| - 1]];
    }
  }

  /** The grade list as stored: every grade trimmed, the blank ones dropped. */
  function CleanGrades(gs: seq<string>): (r: seq<string>)
    ensures |r| <= |gs|
    ensures forall k :: 0 <= k < |r| ==> r[k] != "" && Trim(r[k]) == r[k]
  {
    var trimmed := TrimAll(gs);
    var r := DropEmpty(trimmed);
    forall k | 0 <= k < |r|
      ensures Trim(r[k]) == r[k]
    {
      assert r[k] in trimmed;
      var j :| 0 <= j < |trimmed| && trimmed[j] == r[k];
      TrimIdempotent(gs[j]);
    }
    r
  }

  /** A string is kept exactly when it is non-empty and the trimmed form of some source grade. */
  lemma CleanGradesMembers(gs: seq<string>, x: string)
    ensures x in CleanGrades(gs) <==> x != "" && exists k :: 0 <= k < |gs| && Trim(gs[k]) == x
  {
    var trimmed := TrimAll(gs);
    assert x in CleanGrades(gs) <==> x in trimmed && x != "";
    if x in trimmed {
      var k :| 0 <= k < |trimmed| && trimmed[k] == x;
      assert Trim(gs[k]) == x;
    }
    if exists k :: 0 <= k < |gs| && Trim(gs[k]) == x {
      var k :| 0 <= k < |gs| && Trim(gs[k]) == x;
      assert trimmed[k] == x;
    }
  }

  lemma TrimAllAppend(a: seq<string>, b: seq<string>)
    ensures TrimAll(a + b) == TrimAll(a) + TrimAll(b)
  {
    MapSeqAppend(Trim, a, b);
  }

  /** Cleaning works element by element, so the kept grades stay in their relative order. */
  lemma CleanGradesAppend(a: seq<string>, b: seq<string>)
    ensures CleanGrades(a + b) == CleanGrades(a) + CleanGrades(b)
  {
    TrimAllAppend(a, b);
    DropEmptyAppend(TrimAll(a), TrimAll(b));
  }

  /** Cleaning an already clean grade list changes nothing. */
  lemma CleanGradesIdempotent(gs: seq<string>)
    ensures CleanGrades(CleanGrades(gs)) == CleanGrades(gs)
  {
    var r := CleanGrades(gs);
    assert TrimAll(r) == r;
    DropEmptyKeepsNonEmpty(r);
  }

  /** The document written for one teacher: name and subject trimmed, grades cleaned. */
  function CleanTeacher(d: TeacherData): Teacher {
    Teacher(Trim(d.name), Trim(d.subject), CleanGrades(d.grades))
  }

  /** A stored teacher, uploaded again, is stored as it is. */
  lemma CleanTeacherIdempotent(d: TeacherData)
    ensures var t := CleanTeacher(d);
      CleanTeacher(TeacherData(t.name, t.subject, t.grades)) == t
  {
    TrimIdempotent(d.name);
    TrimIdempotent(d.subject);
    CleanGradesIdempotent(d.grades);
  }

  /**
   * Whether the `set` of write `k` takes effect: `doc(code)` accepts the code
   * (otherwise it throws inside the `try`) and the store reports success.
   */
  predicate WriteSucceeds(code: string, writeOk: bool) {
    writeOk && ValidDocId(code)
  }

  /** The `set` calls the script makes, one per teacher, in the order of `Object.entries`. */
  function TeacherWrites(entries: seq<TeacherEntry>): (ws: seq<(string, Teacher)>)
    ensures |ws| == |entries|
    ensures forall k :: 0 <= k < |entries| ==> ws[k].0 == entries[k].0 && ws[k].1 == CleanTeacher(entries[k].1)
  {
    seq(|entries|, k requires 0 <= k < |entries| => (entries[k].0, CleanTeacher(entries[k].1)))
  }

  /**
   * A collection after a run of awaited `set` calls (without merge), each
   * inside its own `try`: write `k` replaces the document under its id when
   * it succeeds and is logged and skipped when it fails.
   */
  function SetEach<D>(docs: map<string, D>, writes: seq<(string, D)>, writeOk: nat -> bool): map<string, D> {
    if writes == [] then docs
    else
      var n := |writes| - 1;
      var before := SetEach(docs, writes[..n], writeOk);
      if WriteSucceeds(writes[n].0, writeOk(n)) then before[writes[n].0 := writes[n].1] else before
  }

  /** The `teachers` collection after the script; `writeOk(k)` is the store's answer to write `k`. */
  function WriteTeachers(teachers: Teachers, entries: seq<TeacherEntry>, writeOk: nat -> bool): Teachers {
    SetEach(teachers, TeacherWrites(entries), writeOk)
  }

  /** How many writes succeed: the script's `uploaded` counter. */
  function SucceededCount<D>(writes: seq<(string, D)>, writeOk: nat -> bool): (c: nat)
    ensures c <= |writes|
    ensures c == |writes| <==> forall k :: 0 <= k < |writes| ==> WriteSucceeds(writes[k].0, writeOk(k))
  {
    if writes == [] then 0
    else
      var n := |writes| - 1;
      var c := SucceededCount(writes[..n], writeOk);
      assert forall k :: 0 <= k < n ==> writes[..n][k] == writes[k];
      if WriteSucceeds(writes[n].0, writeOk(n)) then c + 1 else c
  }

  /** `db.collection('teachers').doc(code).set(doc)` when it succeeds. */
  method SetTeacher(db: SchoolDb, code: string, doc: Teacher)
    requires db.Valid() && ValidDocId(code)
    modifies db
    ensures db.Valid() && db.students == old(db.students)
    ensures db.teachers == old(db.teachers)[code := doc]
  {
    db.teachers := db.teachers[code := doc];
  }

  /** The awaited `set` calls, in order, each failure caught and skipped; returns how many took effect. */
  method SetEachTeacher(db: SchoolDb, writes: seq<(string, Teacher)>, writeOk: nat -> bool) returns (uploaded: nat)
    requires db.Valid()
    modifies db
    ensures db.Valid() && db.students == old(db.students)
    ensures db.teachers == SetEach(old(db.teachers), writes, writeOk)
    ensures uploaded == SucceededCount(writes, writeOk)
  {
    uploaded := 0;
    for i := 0 to |writes|
      invariant db.Valid() && db.students == old(db.students)
      invariant db.teachers == SetEach(old(db.teachers), writes[..i], writeOk)
      invariant uploaded == SucceededCount(writes[..i], writeOk)
    {
      var (code, doc) := writes[i];
      assert writes[..i + 1][..i] == writes[..i];
      if WriteSucceeds(code, writeOk(i)) {
        SetTeacher(db, code, doc);
        uploaded := uploaded + 1;
      }
    }
    assert writes[..|writes|] == writes;
  }

  /**
   * The script: each teacher's cleaned record is `set` under its code;
   * `uploaded` of `total` is the summary it prints: `uploaded` counts the
   * successful writes, and the two are equal exactly when every write succeeded.
   */
  method UploadTeachers(db: SchoolDb, entries: seq<TeacherEntry>, writeOk: nat -> bool)
    returns (uploaded: nat, total: nat)
    requires db.Valid()
    modifies db
    ensures db.Valid() && db.students == old(db.students)
    ensures db.teachers == WriteTeachers(old(db.teachers), entries, writeOk)
    ensures total == |entries| && uploaded <= total
    ensures uploaded == SucceededCount(TeacherWrites(entries), writeOk)
    ensures uploaded == total <==> forall k :: 0 <= k < |entries| ==> WriteSucceeds(entries[k].0, writeOk(k))
  {
    total := |entries|;
    uploaded := SetEachTeacher(db, TeacherWrites(entries), writeOk);
  }

  /**
   * A teacher whose write succeeded is stored cleaned, whatever the code held
   * before: the `set` has no merge.
   */
  lemma {:induction false} SetEachStores<D>(docs: map<string, D>, writes: seq<(string, D)>, writeOk: nat -> bool, i: nat)
    requires i < |writes| && WriteSucceeds(writes[i].0, writeOk(i))
    requires forall j :: i < j < |writes| ==> writes[j].0 != writes[i].0
    ensures writes[i].0 in SetEach(docs, writes, writeOk)
    ensures SetEach(docs, writes, writeOk)[writes[i].0] == writes[i].1
  {
    var n := |writes| - 1;
    if i < n {
      SetEachStores(docs, writes[..n], writeOk, i);
    }
  }

  lemma {:induction false} SetEachKeepsFailed<D>(docs: map<string, D>, writes: seq<(string, D)>, writeOk: nat -> bool, c: string)
    requires forall k :: 0 <= k < |writes| && writes[k].0 == c ==> !WriteSucceeds(c, writeOk(k))
    ensures c in SetEach(docs, writes, writeOk) <==> c in docs
    ensures c in docs ==> SetEach(docs, writes, writeOk)[c] == docs[c]
  {
    if writes != [] {
      SetEachKeepsFailed(docs, writes[..|writes| - 1], writeOk, c);
    }
  }

  /**
   * A teacher whose write succeeded is stored cleaned, whatever the code held
   * before: the `set` has no merge.
   */
  lemma UploadStoresCleaned(teachers: Teachers, entries: seq<TeacherEntry>, writeOk: nat -> bool, i: nat)
    requires DistinctCodes(entries) && i < |entries| && WriteSucceeds(entries[i].0, writeOk(i))
    ensures entries[i].0 in WriteTeachers(teachers, entries, writeOk)
    ensures WriteTeachers(teachers, entries, writeOk)[entries[i].0] == CleanTeacher(entries[i].1)
  {
    SetEachStores(teachers, TeacherWrites(entries), writeOk, i);
  }

  /** A code whose writes all failed (or that the list does not name) keeps its old document, or its absence. */
  lemma UploadKeepsFailed(teachers: Teachers, entries: seq<TeacherEntry>, writeOk: nat -> bool, c: string)
    requires forall k :: 0 <= k < |entries| && entries[k].0 == c ==> !WriteSucceeds(c, writeOk(k))
    ensures c in WriteTeachers(teachers, entries, writeOk) <==> c in teachers
    ensures c in teachers ==> WriteTeachers(teachers, entries, writeOk)[c] == teachers[c]
  {
    SetEachKeepsFailed(teachers, TeacherWrites(entries), writeOk, c);
  }

  /**
   * End to end: an uploaded teacher signs in with their code and gets the
   * trimmed name and subject and a grade list with no blank entry.
   */
  lemma UploadedTeacherSignsIn(teachers: Teachers, entries: seq<TeacherEntry>, writeOk: nat -> bool, i: nat)
    requires DistinctCodes(entries) && i < |entries| && WriteSucceeds(entries[i].0, writeOk(i))
    requires Trim(entries[i].0) == entries[i].0
    ensures var r := TeacherSignIn(WriteTeachers(teachers, entries, writeOk), entries[i].0);
      && r == TeacherSignedIn(Trim(entries[i].1.name), Trim(entries[i].1.subject), CleanGrades(entries[i].1.grades), entries[i].0)
      && forall k :: 0 <= k < |r.grades| ==> r.grades[k] != ""
  {
    var stored := WriteTeachers(teachers, entries, writeOk);
    var code := entries[i].0;
    var t := CleanTeacher(entries[i].1);
    UploadStoresCleaned(teachers, entries, writeOk, i);
    StoredTeacherSignsIn(stored, code, t);
  }

  lemma StoredTeacherSignsIn(teachers: Teachers, code: string, t: Teacher)
    requires ValidDocId(code) && Trim(code) == code && code in teachers && teachers[code] == t
    ensures TeacherSignIn(teachers, code) == TeacherSignedIn(t.name, t.subject, t.grades, code)
  {
  }
}
