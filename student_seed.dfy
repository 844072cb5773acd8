/**
 * `GET /upload-students` (index.js): the seed list is written to `students`
 * in batches of at most 400 documents, one batch commit per chunk, counting
 * the documents uploaded so far.
 */
module StudentSeed {
  import opened Wrappers
  import opened JsText
  import opened GradeBook
  import opened SchoolStore

  /** One value of the seed file: a student's name and grade level. */
  datatype SeedStudent = SeedStudent(name: string, grade: int)

  /** `[code, student]`, one element of `Object.entries(studentsData)`. */
  type SeedEntry = (string, SeedStudent)

  function Min(a: int, b: int): int {
    if a <= b then a else b
  }

  /** The document a seed entry becomes: `{name: name.trim(), grade, code: parseInt(code)}`. */
  function SeedRecord(e: SeedEntry): Student {
    Student(Some(Trim(e.1.name)), Some(e.1.grade), ParseInt(e.0), None)
  }

  /** One `batch.set(ref, data)` call: the document id and the document written there. */
  type DocWrite = (string, Student)

  /** The writes the seed file asks for, one per entry, in the order of `Object.entries`. */
  function SeedWrites(entries: seq<SeedEntry>): (ws: seq<DocWrite>)
    ensures |ws| == |entries|
    ensures forall k :: 0 <= k < |entries| ==> ws[k] == (entries[k].0, SeedRecord(entries[k]))
  {
    seq(|entries|, k requires 0 <= k < |entries| => (entries[k].0, SeedRecord(entries[k])))
  }

  /**
   * The collection after the `set` calls (no merge) of `writes`, in order:
   * each document replaces whatever was stored under its id.
   */
  function SetAll(students: Students, writes: seq<DocWrite>): Students {
    if writes == [] then students
    else
      var last := writes[|writes| - 1];
      SetAll(students, writes[..|writes| - 1])[last.0 := last.1]
  }

  /** The collection after seeding `entries`. */
  function ApplySeed(students: Students, entries: seq<SeedEntry>): Students {
    SetAll(students, SeedWrites(entries))
  }

  lemma {:induction false} SetAllAppend(students: Students, a: seq<DocWrite>, b: seq<DocWrite>)
    ensures SetAll(students, a + b) == SetAll(SetAll(students, a), b)
  {
    if b == [] {
      assert a + b == a;
    } else {
      assert (a + b)[..|a + b| - 1] == a + b[..|b| - 1];
      SetAllAppend(students, a, b[..|b| - 1]);
    }
  }

  lemma {:induction false} SetAllWellKeyed(students: Students, writes: seq<DocWrite>)
    requires WellKeyed(students)
    requires forall j :: 0 <= j < |writes| ==> ValidDocId(writes[j].0)
    ensures WellKeyed(SetAll(students, writes))
  {
    if writes != [] {
      SetAllWellKeyed(students, writes[..|writes| - 1]);
    }
  }

  lemma PrefixJoin<T>(s: seq<T>, i: nat, j: nat)
    requires i <= j <= |s|
    ensures s[..i] + s[i..j] == s[..j]
  {
  }

  /** The chunks laid end to end. */
  function Flatten<T>(chunks: seq<seq<T>>): seq<T> {
    if chunks == [] then [] else Flatten(chunks[..|chunks| - 1]) + chunks[|chunks| - 1]
  }

  /** `entries.slice(k * 400, k * 400 + 400)`. */
  function ChunkAt<T>(writes: seq<T>, k: nat): seq<T>
    requires k * 400 < |writes|
  {
    writes[k * 400 .. Min(k * 400 + 400, |writes|)]
  }

  /**
   * A chunk's batch is built and committed: `doc()` accepts every id of the
   * chunk (otherwise building the batch throws) and the commit succeeds.
   */
  predicate BatchCommits(chunk: seq<DocWrite>, commitOk: bool) {
    commitOk && forall j :: 0 <= j < |chunk| ==> ValidDocId(chunk[j].0)
  }

  /** `chunks` are the first `|chunks|` chunks of `writes`, each non-empty, at most 400 long and committed. */
  ghost predicate CommittedChunks(writes: seq<DocWrite>, chunks: seq<seq<DocWrite>>, commitOk: nat -> bool) {
    forall k :: 0 <= k < |chunks| ==>
      k * 400 < |writes| && chunks[k] == ChunkAt(writes, k) && 0 < |chunks[k]| <= 400
      && BatchCommits(chunks[k], commitOk(k))
  }

  lemma CommittedChunksExtend(writes: seq<DocWrite>, chunks: seq<seq<DocWrite>>, commitOk: nat -> bool)
    requires CommittedChunks(writes, chunks, commitOk)
    requires |chunks| * 400 < |writes|
    requires BatchCommits(ChunkAt(writes, |chunks|), commitOk(|chunks|))
    ensures CommittedChunks(writes, chunks + [ChunkAt(writes, |chunks|)], commitOk)
  {
    var c := ChunkAt(writes, |chunks|);
    var more := chunks + [c];
    forall k | 0 <= k < |more|
      ensures k * 400 < |writes| && more[k] == ChunkAt(writes, k) && 0 < |more[k]| <= 400
        && BatchCommits(more[k], commitOk(k))
    {
      if k < |chunks| {
        assert more[k] == chunks[k];
      } else {
        assert more[k] == c;
      }
    }
  }

  /** Committed chunks laid end to end are a prefix of the writes. */
  lemma {:induction false} CommittedChunksPrefix(writes: seq<DocWrite>, chunks: seq<seq<DocWrite>>, commitOk: nat -> bool)
    requires CommittedChunks(writes, chunks, commitOk)
    requires chunks == [] || (|chunks| - 1) * 400 < |writes|
    ensures Flatten(chunks) == writes[..Min(|chunks| * 400, |writes|)]
  {
    if chunks != [] {
      var n := |chunks|;
      var init := chunks[..n - 1];
      assert CommittedChunks(writes, init, commitOk) by {
        forall k | 0 <= k < |init|
          ensures k * 400 < |writes| && init[k] == ChunkAt(writes, k) && 0 < |init[k]| <= 400
            && BatchCommits(init[k], commitOk(k))
        {
          assert init[k] == chunks[k];
        }
      }
      if n > 1 {
        assert (n - 2) * 400 < (n - 1) * 400;
      }
      CommittedChunksPrefix(writes, init, commitOk);
      assert chunks[n - 1] == ChunkAt(writes, n - 1);
      PrefixJoin(writes, (n - 1) * 400, Min(n * 400, |writes|));
    }
  }

  lemma ChunkCount(n: nat, c: nat)
    requires c > 0 && (c - 1) * 400 < n <= c * 400
    ensures c == (n + 400 - 1) / 400
  {
  }

  /** `batch.commit()` of one chunk's `batch.set` calls: all of them take effect, in order. */
  method CommitBatch(db: SchoolDb, chunk: seq<DocWrite>)
    requires db.Valid()
    requires forall j :: 0 <= j < |chunk| ==> ValidDocId(chunk[j].0)
    modifies db
    ensures db.Valid() && db.teachers == old(db.teachers)
    ensures db.students == SetAll(old(db.students), chunk)
  {
    SetAllWellKeyed(db.students, chunk);
    db.students := SetAll(db.students, chunk);
  }

  /**
   * The loop's bookkeeping after `|chunks|` committed chunks: the index `i`
   * has advanced by 400 per chunk and `uploaded` counts the writes committed.
   */
  ghost predicate BatchProgress(writes: seq<DocWrite>, commitOk: nat -> bool, i: nat, uploaded: nat, chunks: seq<seq<DocWrite>>) {
    && i == |chunks| * 400
    && (chunks == [] || i - 400 < |writes|)
    && uploaded == Min(i, |writes|)
    && CommittedChunks(writes, chunks, commitOk)
  }

  lemma BatchProgressStep(writes: seq<DocWrite>, commitOk: nat -> bool, i: nat, uploaded: nat,
                          chunks: seq<seq<DocWrite>>, start: Students)
    requires BatchProgress(writes, commitOk, i, uploaded, chunks) && i < |writes|
    requires BatchCommits(writes[i .. Min(i + 400, |writes|)], commitOk(|chunks|))
    ensures var chunk := writes[i .. Min(i + 400, |writes|)];
      && BatchProgress(writes, commitOk, i + 400, uploaded + |chunk|, chunks + [chunk])
      && SetAll(start, writes[..uploaded + |chunk|]) == SetAll(SetAll(start, writes[..uploaded]), chunk)
  {
    var end := Min(i + 400, |writes|);
    var chunk := writes[i .. end];
    assert uploaded == i;
    assert chunk == ChunkAt(writes, |chunks|) by {
      assert end == Min(|chunks| * 400 + 400, |writes|);
    }
    SetAllAppend(start, writes[..uploaded], chunk);
    PrefixJoin(writes, i, end);
    CommittedChunksExtend(writes, chunks, commitOk);
  }

  /** When the loop runs out of writes, every write is uploaded, in `ceil(n / 400)` chunks. */
  lemma BatchProgressDone(writes: seq<DocWrite>, commitOk: nat -> bool, i: nat, uploaded: nat, chunks: seq<seq<DocWrite>>)
    requires BatchProgress(writes, commitOk, i, uploaded, chunks) && |writes| <= i && writes != []
    ensures uploaded == |writes| && Flatten(chunks) == writes[..uploaded]
    ensures |chunks| == (|writes| + 400 - 1) / 400
  {
    CommittedChunksPrefix(writes, chunks, commitOk);
    ChunkCount(|writes|, |chunks|);
  }

  /** When a chunk fails to commit, the chunks before it are exactly the uploaded prefix. */
  lemma BatchProgressFailed(writes: seq<DocWrite>, commitOk: nat -> bool, i: nat, uploaded: nat, chunks: seq<seq<DocWrite>>)
    requires BatchProgress(writes, commitOk, i, uploaded, chunks) && i < |writes|
    requires !BatchCommits(writes[i .. Min(i + 400, |writes|)], commitOk(|chunks|))
    ensures uploaded <= |writes| && Flatten(chunks) == writes[..uploaded]
    ensures uploaded == |chunks| * 400 < |writes| && !BatchCommits(ChunkAt(writes, |chunks|), commitOk(|chunks|))
  {
    assert writes[i .. Min(i + 400, |writes|)] == ChunkAt(writes, |chunks|);
    CommittedChunksPrefix(writes, chunks, commitOk);
  }

  /** The page `/upload-students` sends. */
  datatype SeedReply =
    | NotFound      // "students.json not found!"
    | Uploaded      // the success page
    | UploadError   // the error page with the exception's message

  /**
   * The chunk loop of `/upload-students` over the writes. `commitOk(k)` is
   * the outcome of the k-th `batch.commit()`; the first failing chunk ends
   * the loop with the error page, and the chunks committed before it stay
   * in the collection.
   */
  method UploadInBatches(db: SchoolDb, writes: seq<DocWrite>, commitOk: nat -> bool)
    returns (reply: SeedReply, uploaded: nat, chunks: seq<seq<DocWrite>>)
    requires db.Valid()
    modifies db
    ensures db.Valid() && db.teachers == old(db.teachers)
    ensures uploaded <= |writes| && Flatten(chunks) == writes[..uploaded]
    ensures db.students == SetAll(old(db.students), writes[..uploaded])
    ensures CommittedChunks(writes, chunks, commitOk)
    ensures reply == NotFound <==> writes == []
    ensures writes == [] ==> chunks == []
    ensures reply == Uploaded <==> writes != [] && uploaded == |writes|
    ensures reply == Uploaded ==> |chunks| == (|writes| + 400 - 1) / 400
    ensures reply == UploadError ==>
      uploaded == |chunks| * 400 < |writes| && !BatchCommits(ChunkAt(writes, |chunks|), commitOk(|chunks|))
  {
    chunks := [];
    uploaded := 0;
    if |writes| == 0 {
      return NotFound, uploaded, chunks;
    }
    ghost var start := db.students;
    var i := 0;
    while i < |writes|
      invariant BatchProgress(writes, commitOk, i, uploaded, chunks)
      invariant db.students == SetAll(start, writes[..uploaded])
      invariant db.Valid() && db.teachers == old(db.teachers)
      decreases |writes| - i
    {
      var chunk := writes[i .. Min(i + 400, |writes|)];
      if !BatchCommits(chunk, commitOk(|chunks|)) {
        BatchProgressFailed(writes, commitOk, i, uploaded, chunks);
        return UploadError, uploaded, chunks;
      }
      BatchProgressStep(writes, commitOk, i, uploaded, chunks, start);
      CommitBatch(db, chunk);
      chunks := chunks + [chunk];
      uploaded := uploaded + |chunk|;
      i := i + 400;
    }
    BatchProgressDone(writes, commitOk, i, uploaded, chunks);
    reply := Uploaded;
  }

  /** A prefix of the seed writes is the writes of that prefix of the entries. */
  lemma SeedWritesPrefix(entries: seq<SeedEntry>, n: nat)
    requires n <= |entries|
    ensures SeedWrites(entries)[..n] == SeedWrites(entries[..n])
  {
  }

  /**
   * `GET /upload-students` with the seed file's entries: each entry becomes
   * its document and the documents go up in batches of 400.
   */
  method UploadStudents(db: SchoolDb, entries: seq<SeedEntry>, commitOk: nat -> bool)
    returns (reply: SeedReply, uploaded: nat, chunks: seq<seq<DocWrite>>)
    requires db.Valid()
    modifies db
    ensures db.Valid() && db.teachers == old(db.teachers)
    ensures uploaded <= |entries| && Flatten(chunks) == SeedWrites(entries[..uploaded])
    ensures db.students == ApplySeed(old(db.students), entries[..uploaded])
    ensures CommittedChunks(SeedWrites(entries), chunks, commitOk)
    ensures reply == NotFound <==> entries == []
    ensures reply == Uploaded <==> entries != [] && uploaded == |entries|
    ensures reply == Uploaded ==> |chunks| == (|entries| + 400 - 1) / 400
    ensures reply == UploadError ==>
      uploaded == |chunks| * 400 < |entries|
      && !BatchCommits(ChunkAt(SeedWrites(entries), |chunks|), commitOk(|chunks|))
  {
    reply, uploaded, chunks := UploadInBatches(db, SeedWrites(entries), commitOk);
    SeedWritesPrefix(entries, uploaded);
  }

  /** Of several writes with distinct ids, write `i` is what its id holds afterwards. */
  lemma {:induction false} SetAllStores(students: Students, writes: seq<DocWrite>, i: nat)
    requires i < |writes|
    requires forall j :: i < j < |writes| ==> writes[j].0 != writes[i].0
    ensures writes[i].0 in SetAll(students, writes)
    ensures SetAll(students, writes)[writes[i].0] == writes[i].1
  {
    var n := |writes| - 1;
    if i < n {
      SetAllStores(students, writes[..n], i);
    }
  }

  /** An id no write names keeps its document, or its absence. */
  lemma {:induction false} SetAllKeepsOthers(students: Students, writes: seq<DocWrite>, c: string)
    requires forall j :: 0 <= j < |writes| ==> writes[j].0 != c
    ensures c in SetAll(students, writes) <==> c in students
    ensures c in students ==> SetAll(students, writes)[c] == students[c]
  {
    if writes != [] {
      SetAllKeepsOthers(students, writes[..|writes| - 1], c);
    }
  }

  /** After seeding, entry `i`'s code holds exactly that entry's record: name trimmed, grade as given, no `grades`. */
  lemma SeedStoresEntry(students: Students, entries: seq<SeedEntry>, i: nat)
    requires DistinctCodes(entries) && i < |entries|
    ensures entries[i].0 in ApplySeed(students, entries)
    ensures ApplySeed(students, entries)[entries[i].0] == SeedRecord(entries[i])
  {
    SetAllStores(students, SeedWrites(entries), i);
  }

  /** Seeding leaves every document whose code no entry carries as it was. */
  lemma SeedKeepsOthers(students: Students, entries: seq<SeedEntry>, c: string)
    requires forall i :: 0 <= i < |entries| ==> entries[i].0 != c
    ensures c in ApplySeed(students, entries) <==> c in students
    ensures c in students ==> ApplySeed(students, entries)[c] == students[c]
  {
    SetAllKeepsOthers(students, SeedWrites(entries), c);
  }

  /**
   * Seeding overwrites without merge, so a seeded student has no grades
   * afterwards, whatever had been recorded under that code before.
   */
  lemma SeedClearsGrades(students: Students, entries: seq<SeedEntry>, i: nat)
    requires DistinctCodes(entries) && i < |entries|
    ensures GradesAt(ApplySeed(students, entries), entries[i].0) == map[]
  {
    SeedStoresEntry(students, entries, i);
  }

  /**
   * End to end: a seeded student signs in with their code and their grade
   * level written in decimal, and the reply carries the trimmed name.
   */
  lemma SeededStudentSignsIn(students: Students, entries: seq<SeedEntry>, i: nat)
    requires DistinctCodes(entries) && i < |entries|
    requires ValidDocId(entries[i].0) && Trim(entries[i].0) == entries[i].0
    requires entries[i].1.grade >= 0
    ensures StudentSignIn(ApplySeed(students, entries), entries[i].0, DecimalString(entries[i].1.grade))
      == SignedIn(Some(Trim(entries[i].1.name)), entries[i].1.grade, entries[i].0)
  {
    SeedStoresEntry(students, entries, i);
    ParseIntDecimal(entries[i].1.grade, false);
    assert "" + DecimalString(entries[i].1.grade) == DecimalString(entries[i].1.grade);
  }
}
