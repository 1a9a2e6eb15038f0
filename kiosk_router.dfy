/** The kiosk endpoints of backend/routers/kiosk.py.  The face matcher is an
    oracle: `similarity(probe, embeddings)` is the cosine score of the probe
    against the centroid of a student's stored embeddings, or None when that
    centroid has norm zero; the match threshold is a parameter. */
module KioskRouter {
  import opened Common
  import opened Models

  /** The best candidate found so far: its position in the student list and
      its score. */
  datatype Candidate = Candidate(index: nat, score: real)

  /** The score the running best starts from. */
  const FLOOR: real := -1.0

  function ScoreOf(b: Option<Candidate>): real
  {
    if b.None? then FLOOR else b.value.score
  }

  /** The running best after scanning `scores` left to right, replacing it
      only on a strictly higher score. */
  function Leader(scores: seq<Option<real>>): (r: Option<Candidate>)
    ensures r.Some? ==> r.value.index < |scores|
    decreases |scores|
  {
    if scores == [] then None
    else
      var prev := Leader(scores[..|scores| - 1]);
      var last := scores[|scores| - 1];
      if last.Some? && last.value > ScoreOf(prev) then Some(Candidate(|scores| - 1, last.value))
      else prev
  }

  /** The running best is the first scored position strictly above -1 and
      above every earlier score, and no later score beats it; there is none
      exactly when no score exceeds -1. */
  lemma {:induction false} LeaderIsFirstMaximum(scores: seq<Option<real>>)
    ensures var b := Leader(scores);
      && (b.None? <==> forall i :: 0 <= i < |scores| ==> scores[i].None? || scores[i].value <= FLOOR)
      && (b.Some? ==>
            && b.value.index < |scores| && scores[b.value.index] == Some(b.value.score)
            && b.value.score > FLOOR
            && (forall j :: 0 <= j < b.value.index && scores[j].Some? ==> scores[j].value < b.value.score)
            && (forall j :: b.value.index < j < |scores| && scores[j].Some? ==> scores[j].value <= b.value.score))
    decreases |scores|
  {
    if scores != [] {
      var init := scores[..|scores| - 1];
      LeaderIsFirstMaximum(init);
      assert forall j :: 0 <= j < |init| ==> init[j] == scores[j];
    }
  }

  /** One more score moves the running best only when it is strictly higher. */
  lemma LeaderSnoc(scores: seq<Option<real>>, i: nat)
    requires i < |scores|
    ensures Leader(scores[..i + 1]) ==
      if scores[i].Some? && scores[i].value > ScoreOf(Leader(scores[..i]))
      then Some(Candidate(i, scores[i].value)) else Leader(scores[..i])
  {
    assert scores[..i + 1][..i] == scores[..i];
  }

  /** The embeddings stored for user `u`, in query order. */
  function EmbeddingsOf(embs: seq<FaceEmbedding>, u: User): (r: seq<Vector>)
    ensures |r| <= |embs|
  {
    Map(Filter(embs, (e: FaceEmbedding) => e.userId == u.id), (e: FaceEmbedding) => e.embedding)
  }

  /** A student's score: none without stored embeddings or with a zero-norm
      centroid. */
  function StudentScore(similarity: (Vector, seq<Vector>) -> Option<real>, probe: Vector,
                        embs: seq<FaceEmbedding>, u: User): Option<real>
  {
    var mine := EmbeddingsOf(embs, u);
    if mine == [] then None else similarity(probe, mine)
  }

  /** The candidate loop of `kiosk_mark_attendance`. */
  method PickBest(students: seq<User>, scoreOf: User -> Option<real>) returns (best: Option<Candidate>)
    ensures best == Leader(Map(students, scoreOf))
    ensures best.None? <==> forall i :: 0 <= i < |students| ==> scoreOf(students[i]).None? || scoreOf(students[i]).value <= FLOOR
    ensures best.Some? ==>
      && best.value.index < |students| && scoreOf(students[best.value.index]) == Some(best.value.score)
      && best.value.score > FLOOR
      && (forall j :: 0 <= j < best.value.index && scoreOf(students[j]).Some? ==> scoreOf(students[j]).value < best.value.score)
      && (forall j :: best.value.index < j < |students| && scoreOf(students[j]).Some? ==> scoreOf(students[j]).value <= best.value.score)
  {
    ghost var scores := Map(students, scoreOf);
    best := None;
    var i := 0;
    while i < |students|
      invariant 0 <= i <= |students|
      invariant best == Leader(scores[..i])
    {
      var score := scoreOf(students[i]);
      assert scores[..i + 1][..i] == scores[..i];
      if score.Some? && score.value > ScoreOf(best) {
        best := Some(Candidate(i, score.value));
      }
      i := i + 1;
    }
    assert scores[..|students|] == scores;
    LeaderIsFirstMaximum(scores);
  }

  // ------------------------------------------------ single-probe endpoint

  datatype KioskResult =
    | NoFace
    | NoEmbeddings
    | NotEnrolled(studentId: Id, enrollmentNo: Option<string>, score: real)
    | AlreadyMarked(studentId: Id, score: real)
    | Matched(studentId: Id, name: Option<string>, enrollmentNo: Option<string>, score: real)
    | Unresolved(topScore: real)

  /** The `status` field of the JSON answer. */
  function StatusText(r: KioskResult): string
  {
    match r
    case NoFace => "no_face"
    case NoEmbeddings => "no_embeddings"
    case NotEnrolled(_, _, _) => "not_enrolled"
    case AlreadyMarked(_, _) => "already_marked"
    case Matched(_, _, _, _) => "matched"
    case Unresolved(_) => "unresolved"
  }

  datatype KioskOutcome =
    | SessionNotFound          // HTTP 404
    | InvalidImage             // HTTP 400: the probe could not be decoded and saved
    | Answered(result: KioskResult)

  /** Everything the endpoint receives besides the tables: the session id,
      whether the probe could be saved, the probe's embedding (None when no
      face was found), where the probe was saved and the clock. */
  datatype Probe = Probe(sessionId: Id, saved: bool, embedding: Option<Vector>, path: string, now: int)

  function Students(users: seq<User>): seq<User>
  {
    Filter(users, (u: User) => u.role == Student)
  }

  predicate Enrolled(enrollments: seq<CourseEnrollment>, userId: Id, subjectId: Id)
  {
    exists i :: 0 <= i < |enrollments| && enrollments[i].userId == userId && enrollments[i].subjectId == subjectId
  }

  predicate Marked(records: seq<AttendanceRecord>, sessionId: Id, studentId: Id)
  {
    exists i :: 0 <= i < |records| && records[i].sessionId == sessionId && records[i].studentId == studentId
  }

  /** The ledger key. */
  function Pair(r: AttendanceRecord): (Id, Id)
  {
    (r.sessionId, r.studentId)
  }

  /** The candidate the student loop keeps for one probe: the first student
      user with the highest score, as an index into the student users. */
  function KioskBest(users: seq<User>, embs: seq<FaceEmbedding>,
                     similarity: (Vector, seq<Vector>) -> Option<real>, probe: Vector): (r: Option<Candidate>)
    ensures r.Some? ==> r.value.index < |Students(users)|
  {
    Leader(Map(Students(users), (u: User) => StudentScore(similarity, probe, embs, u)))
  }

  /** What `kiosk_mark_attendance` answers and the ledger it leaves; `newId`
      is the id a new record receives. */
  function MarkEffect(sessions: seq<ClassSession>, users: seq<User>, embs: seq<FaceEmbedding>,
                      enrollments: seq<CourseEnrollment>, records: seq<AttendanceRecord>,
                      similarity: (Vector, seq<Vector>) -> Option<real>, threshold: real,
                      p: Probe, newId: Id): (KioskOutcome, seq<AttendanceRecord>)
  {
    match Find(sessions, (s: ClassSession) => s.id == p.sessionId)
    case None => (SessionNotFound, records)
    case Some(session) =>
      if !p.saved then (InvalidImage, records)
      else if p.embedding.None? then (Answered(NoFace), records)
      else
        var students := Students(users);
        var best := KioskBest(users, embs, similarity, p.embedding.value);
        if best.None? then (Answered(NoEmbeddings), records)
        else
          var s := students[best.value.index];
          var score := best.value.score;
          if score >= threshold then
            if !Enrolled(enrollments, s.id, session.subjectId) then
              (Answered(NotEnrolled(s.id, s.enrollmentNo, score)), records)
            else if Marked(records, p.sessionId, s.id) then
              (Answered(AlreadyMarked(s.id, score)), records)
            else
              var att := AttendanceRecord(newId, p.sessionId, s.id, p.now, PRESENT, Some(score), Some(p.path));
              (Answered(Matched(s.id, s.fullName, s.enrollmentNo, score)), records + [att])
          else (Answered(Unresolved(score)), records)
  }

  method KioskMarkAttendance(db: Store, similarity: (Vector, seq<Vector>) -> Option<real>,
                             threshold: real, p: Probe) returns (r: KioskOutcome)
    modifies db`records, db`nextId
    ensures (r, db.records) == MarkEffect(db.sessions, db.users, db.embeddings, db.enrollments,
                                          old(db.records), similarity, threshold, p, old(db.nextId))
    ensures db.nextId == old(db.nextId) + (if r.Answered? && r.result.Matched? then 1 else 0)
  {
    var session := Find(db.sessions, (s: ClassSession) => s.id == p.sessionId);
    if session.None? {
      return SessionNotFound;
    }
    if !p.saved {
      return InvalidImage;
    }
    if p.embedding.None? {
      return Answered(NoFace);
    }
    var students := Students(db.users);
    var probe := p.embedding.value;
    var embs := db.embeddings;
    var best := PickBest(students, (u: User) => StudentScore(similarity, probe, embs, u));
    if best.None? {
      return Answered(NoEmbeddings);
    }
    var s := students[best.value.index];
    var score := best.value.score;
    if score >= threshold {
      if !Enrolled(db.enrollments, s.id, session.value.subjectId) {
        return Answered(NotEnrolled(s.id, s.enrollmentNo, score));
      }
      if Marked(db.records, p.sessionId, s.id) {
        return Answered(AlreadyMarked(s.id, score));
      }
      var att := AttendanceRecord(db.nextId, p.sessionId, s.id, p.now, PRESENT, Some(score), Some(p.path));
      db.records := db.records + [att];
      db.nextId := db.nextId + 1;
      r := Answered(Matched(s.id, s.fullName, s.enrollmentNo, score));
    } else {
      r := Answered(Unresolved(score));
    }
  }

  /** The ladder of the single-probe endpoint: 404 and 400 come before any
      matching; no face and no usable embeddings are reported as such; once
      there is a best student, the answer is decided by that student and
      score alone: below the threshold unresolved, else not enrolled in the
      session's subject, else already marked, else matched, and then exactly
      one PRESENT record for (session, student) is added; every other
      outcome leaves the ledger unchanged. */
  lemma KioskLadder(sessions: seq<ClassSession>, users: seq<User>, embs: seq<FaceEmbedding>,
                    enrollments: seq<CourseEnrollment>, records: seq<AttendanceRecord>,
                    similarity: (Vector, seq<Vector>) -> Option<real>, threshold: real,
                    p: Probe, newId: Id)
    ensures var (r, t) := MarkEffect(sessions, users, embs, enrollments, records, similarity, threshold, p, newId);
      && (r.SessionNotFound? <==> forall i :: 0 <= i < |sessions| ==> sessions[i].id != p.sessionId)
      && (r.InvalidImage? <==> !r.SessionNotFound? && !p.saved)
      && (r == Answered(NoFace) <==> !r.SessionNotFound? && p.saved && p.embedding.None?)
      && (r == Answered(NoEmbeddings) <==>
            !r.SessionNotFound? && p.saved && p.embedding.Some?
            && forall i :: 0 <= i < |Students(users)| ==>
                 var sc := StudentScore(similarity, p.embedding.value, embs, Students(users)[i]);
                 sc.None? || sc.value <= FLOOR)
      && (r.Answered? && r.result.Matched? ==>
            t == records + [AttendanceRecord(newId, p.sessionId, r.result.studentId, p.now, PRESENT,
                                             Some(r.result.score), Some(p.path))]
            && r.result.score >= threshold)
      && (!(r.Answered? && r.result.Matched?) ==> t == records)
  {
    var k := FirstIndex(sessions, (s: ClassSession) => s.id == p.sessionId);
    if k.Some? {
      assert Find(sessions, (s: ClassSession) => s.id == p.sessionId) == Some(sessions[k.value]);
      if p.saved && p.embedding.Some? {
        var students := Students(users);
        var scores := Map(students, (u: User) => StudentScore(similarity, p.embedding.value, embs, u));
        LeaderIsFirstMaximum(scores);
      }
    }
  }

  /** No usable embeddings is answered exactly when no student has a score;
      every later answer comes from a found session, a decoded probe and a
      best student. */
  lemma KioskReachesBest(sessions: seq<ClassSession>, users: seq<User>, embs: seq<FaceEmbedding>,
                         enrollments: seq<CourseEnrollment>, records: seq<AttendanceRecord>,
                         similarity: (Vector, seq<Vector>) -> Option<real>, threshold: real,
                         p: Probe, newId: Id)
    ensures var (r, t) := MarkEffect(sessions, users, embs, enrollments, records, similarity, threshold, p, newId);
      var k := FirstIndex(sessions, (s: ClassSession) => s.id == p.sessionId);
      var b := if p.embedding.Some? then KioskBest(users, embs, similarity, p.embedding.value) else None;
      && (r == Answered(NoEmbeddings) <==> k.Some? && p.saved && p.embedding.Some? && b.None?)
      && (r.Answered? && !r.result.NoFace? && !r.result.NoEmbeddings? ==>
            k.Some? && p.saved && p.embedding.Some? && b.Some?)
  {
    var k := FirstIndex(sessions, (s: ClassSession) => s.id == p.sessionId);
    if k.Some? {
      assert Find(sessions, (s: ClassSession) => s.id == p.sessionId) == Some(sessions[k.value]);
    }
  }

  /** Once the session is found, the probe decoded and a best student
      chosen, the answer is decided by that student and score alone, each
      answer exactly when its checks come out so: below the threshold
      unresolved, else not enrolled in the session's subject, else already
      marked, else matched. */
  lemma KioskVerdict(sessions: seq<ClassSession>, users: seq<User>, embs: seq<FaceEmbedding>,
                     enrollments: seq<CourseEnrollment>, records: seq<AttendanceRecord>,
                     similarity: (Vector, seq<Vector>) -> Option<real>, threshold: real,
                     p: Probe, newId: Id, k: nat, b: Candidate)
    requires FirstIndex(sessions, (s: ClassSession) => s.id == p.sessionId) == Some(k)
    requires p.saved && p.embedding.Some? && KioskBest(users, embs, similarity, p.embedding.value) == Some(b)
    ensures var (r, t) := MarkEffect(sessions, users, embs, enrollments, records, similarity, threshold, p, newId);
      var s := Students(users)[b.index];
      var subject := sessions[k].subjectId;
      && (r == Answered(Unresolved(b.score)) <==> b.score < threshold)
      && (r == Answered(NotEnrolled(s.id, s.enrollmentNo, b.score)) <==>
            b.score >= threshold && !Enrolled(enrollments, s.id, subject))
      && (r == Answered(AlreadyMarked(s.id, b.score)) <==>
            b.score >= threshold && Enrolled(enrollments, s.id, subject) && Marked(records, p.sessionId, s.id))
      && (r == Answered(Matched(s.id, s.fullName, s.enrollmentNo, b.score)) <==>
            b.score >= threshold && Enrolled(enrollments, s.id, subject) && !Marked(records, p.sessionId, s.id))
  {
    assert Find(sessions, (s: ClassSession) => s.id == p.sessionId) == Some(sessions[k]);
  }

  /** The best of the student list is a student user whose score is at
      least that of every student user. */
  lemma BestAmongStudents(users: seq<User>, scoreOf: User -> Option<real>)
    ensures var b := Leader(Map(Students(users), scoreOf));
      b.Some? ==>
        exists i :: 0 <= i < |users| && users[i] == Students(users)[b.value.index] && users[i].role == Student
          && scoreOf(users[i]) == Some(b.value.score)
          && forall j :: 0 <= j < |users| && users[j].role == Student && scoreOf(users[j]).Some? ==>
               scoreOf(users[j]).value <= b.value.score
  {
    var students := Students(users);
    var scores := Map(students, scoreOf);
    LeaderIsFirstMaximum(scores);
    var b := Leader(scores);
    if b.Some? {
      var s := students[b.value.index];
      assert s in students;
      var i :| 0 <= i < |users| && users[i] == s;
      forall j | 0 <= j < |users| && users[j].role == Student && scoreOf(users[j]).Some?
        ensures scoreOf(users[j]).value <= b.value.score
      {
        assert users[j] in students;
        var m :| 0 <= m < |students| && students[m] == users[j];
        assert scores[m] == scoreOf(users[j]);
      }
    }
  }

  /** The matched student is a student user with stored embeddings whose
      score is the best among all student users, so the outcome never names
      an unscored user. */
  lemma MatchedIsBestStudent(sessions: seq<ClassSession>, users: seq<User>, embs: seq<FaceEmbedding>,
                             enrollments: seq<CourseEnrollment>, records: seq<AttendanceRecord>,
                             similarity: (Vector, seq<Vector>) -> Option<real>, threshold: real,
                             p: Probe, newId: Id)
    ensures var (r, _) := MarkEffect(sessions, users, embs, enrollments, records, similarity, threshold, p, newId);
      r.Answered? && r.result.Matched? ==>
        exists i :: 0 <= i < |users| && users[i].id == r.result.studentId && users[i].role == Student
          && EmbeddingsOf(embs, users[i]) != []
          && forall j :: 0 <= j < |users| && users[j].role == Student &&
                          StudentScore(similarity, p.embedding.value, embs, users[j]).Some? ==>
               StudentScore(similarity, p.embedding.value, embs, users[j]).value <= r.result.score
  {
    var (r, _) := MarkEffect(sessions, users, embs, enrollments, records, similarity, threshold, p, newId);
    if r.Answered? && r.result.Matched? {
      var probe := p.embedding.value;
      BestAmongStudents(users, (u: User) => StudentScore(similarity, probe, embs, u));
    }
  }

  /** The endpoint keeps the ledger at one record per (session, student). */
  lemma KioskKeepsOneRecordPerPair(sessions: seq<ClassSession>, users: seq<User>, embs: seq<FaceEmbedding>,
                                   enrollments: seq<CourseEnrollment>, records: seq<AttendanceRecord>,
                                   similarity: (Vector, seq<Vector>) -> Option<real>, threshold: real,
                                   p: Probe, newId: Id)
    requires UniqueBy(records, Pair)
    ensures UniqueBy(MarkEffect(sessions, users, embs, enrollments, records, similarity, threshold, p, newId).1, Pair)
  {
    var (r, t) := MarkEffect(sessions, users, embs, enrollments, records, similarity, threshold, p, newId);
    KioskLadder(sessions, users, embs, enrollments, records, similarity, threshold, p, newId);
    if r.Answered? && r.result.Matched? {
      var att := t[|records|];
      assert t == records + [att];
      assert !Marked(records, p.sessionId, att.studentId);
      AppendFreshKey(records, att, Pair);
    }
  }

  // ------------------------------------------------- multi-frame endpoint

  /** The lookups the multi-frame endpoint makes on user rows and on its
      ledger, which the UUID-keyed tables do not define, taken abstractly:
      a student's stored embeddings (None when the field is missing or does
      not parse as a list), the similarity of a probe to their centroid,
      whether a user row with that id exists, and the student's enrolment
      flag. */
  datatype MultiLookups = MultiLookups(
    faceEmbeddings: User -> Option<seq<Vector>>,
    dot: (Vector, seq<Vector>) -> real,
    userExists: Id -> bool,
    isEnrolled: Id -> bool)

  /** What the face service makes of one uploaded frame: bytes that do not
      open as an image (the decoder raises, and nothing in the endpoint
      catches it), or an image with the embedding of its largest face, None
      when it has no face. */
  datatype FrameScan = Unreadable | Read(face: Option<Vector>)

  /** Some uploaded frame is not an image. */
  predicate AnyUnreadable(uploads: seq<FrameScan>)
  {
    exists i :: 0 <= i < |uploads| && uploads[i].Unreadable?
  }

  /** The probe of each frame, None for a frame without a face (and for an
      unreadable one, which the endpoint never gets past). */
  function Faces(uploads: seq<FrameScan>): (r: seq<Option<Vector>>)
    ensures |r| == |uploads|
    ensures forall i :: 0 <= i < |uploads| ==> r[i] == (if uploads[i].Read? then uploads[i].face else None)
  {
    Map(uploads, (u: FrameScan) => if u.Read? then u.face else None)
  }

  datatype MultiResult =
    | MultiSessionNotFound                         // HTTP 404
    | MultiInternalError                           // HTTP 500: a frame is not an image
    | FramesNoFace                                 // no frame yielded a candidate
    | IdentityUnresolved                           // the candidate's user row is gone
    | StudentNotEnrolled(studentId: Id)
    | StudentAlreadyMarked(studentId: Id)
    | BelowThreshold(studentId: Id, score: real)
    | StudentMatched(studentId: Id, score: real)

  /** The `status` field of the JSON answer; a 404 carries none. */
  function MultiStatusText(r: MultiResult): Option<string>
  {
    match r
    case MultiSessionNotFound => None
    case MultiInternalError => None
    case FramesNoFace => Some("no_face")
    case IdentityUnresolved => Some("unresolved")
    case StudentNotEnrolled(_) => Some("not_enrolled")
    case StudentAlreadyMarked(_) => Some("already_marked")
    case BelowThreshold(_, _) => Some("unresolved")
    case StudentMatched(_, _) => Some("matched")
  }

  /** A student's score against one frame's probe: none when no usable
      embedding list is stored. */
  function MultiScore(look: MultiLookups, probe: Vector, u: User): Option<real>
  {
    match look.faceEmbeddings(u)
    case None => None
    case Some(l) => if l == [] then None else Some(look.dot(probe, l))
  }

  /** The best student of one frame; a faceless frame has none. */
  function FrameBest(students: seq<User>, look: MultiLookups, frame: Option<Vector>): (r: Option<Candidate>)
    ensures r.Some? ==> r.value.index < |students|
  {
    if frame.None? then None
    else Leader(Map(students, (u: User) => MultiScore(look, frame.value, u)))
  }

  /** The best score of each frame, in frame order. */
  function FrameTops(students: seq<User>, look: MultiLookups, frames: seq<Option<Vector>>): (r: seq<Option<real>>)
    ensures |r| == |frames|
    ensures forall f :: 0 <= f < |frames| ==>
      r[f] == (if FrameBest(students, look, frames[f]).None? then None
               else Some(FrameBest(students, look, frames[f]).value.score))
  {
    Map(frames, (fr: Option<Vector>) =>
      var b := FrameBest(students, look, fr);
      if b.None? then None else Some(b.value.score))
  }

  /** The student loop of one frame: none for a faceless frame. */
  method ScanFrame(students: seq<User>, look: MultiLookups, face: Option<Vector>) returns (fb: Option<Candidate>)
    ensures fb == FrameBest(students, look, face)
    ensures fb.Some? ==> fb.value.score > FLOOR
  {
    if face.None? {
      return None;
    }
    var probe := face.value;
    fb := PickBest(students, (u: User) => MultiScore(look, probe, u));
  }

  /** The running best of the frame loop names a frame before `f` and the
      student that frame picked. */
  ghost predicate KeptFrame(students: seq<User>, look: MultiLookups, frames: seq<Option<Vector>>,
                            global: Option<Candidate>, globalStudent: nat, f: nat)
  {
    global.Some? ==>
      && global.value.index < f && global.value.index < |frames|
      && FrameBest(students, look, frames[global.value.index]).Some?
      && globalStudent == FrameBest(students, look, frames[global.value.index]).value.index
  }

  /** The loop over the uploaded frames: the first unreadable frame aborts
      it; otherwise it keeps the first frame with the highest per-frame
      best score, with the student that frame picked. */
  method BestFrame(students: seq<User>, look: MultiLookups, uploads: seq<FrameScan>)
    returns (failed: bool, global: Option<Candidate>, globalStudent: nat)
    ensures failed <==> AnyUnreadable(uploads)
    ensures !failed ==> global == Leader(FrameTops(students, look, Faces(uploads)))
    ensures !failed && global.Some? ==>
      && global.value.index < |uploads|
      && FrameBest(students, look, Faces(uploads)[global.value.index]).Some?
      && globalStudent == FrameBest(students, look, Faces(uploads)[global.value.index]).value.index
  {
    ghost var frames := Faces(uploads);
    ghost var tops := FrameTops(students, look, frames);
    failed, global, globalStudent := false, None, 0;
    var f := 0;
    while f < |uploads| && !failed
      invariant 0 <= f <= |uploads|
      invariant failed ==> AnyUnreadable(uploads)
      invariant !failed ==> forall k :: 0 <= k < f ==> !uploads[k].Unreadable?
      invariant !failed ==> global == Leader(tops[..f])
      invariant !failed ==> KeptFrame(students, look, frames, global, globalStudent, f)
    {
      if uploads[f].Unreadable? {
        failed := true;
      } else {
        var fb := ScanFrame(students, look, uploads[f].face);
        assert fb == FrameBest(students, look, frames[f]);
        assert tops[f] == if fb.None? then None else Some(fb.value.score);
        LeaderSnoc(tops, f);
        if fb.Some? && (global.None? || fb.value.score > global.value.score) {
          global := Some(Candidate(f, fb.value.score));
          globalStudent := fb.value.index;
        }
      }
      f := f + 1;
    }
    if !failed {
      assert tops[..|uploads|] == tops;
    }
  }

  /** The candidate the frame loop keeps: the student (as an index into the
      student users) picked by the winning frame, with that frame's score. */
  function MultiWinner(users: seq<User>, look: MultiLookups, frames: seq<Option<Vector>>): (r: Option<Candidate>)
    ensures r.Some? ==> r.value.index < |Students(users)|
  {
    var students := Students(users);
    var g := Leader(FrameTops(students, look, frames));
    if g.None? then None
    else
      LeaderIsFirstMaximum(FrameTops(students, look, frames));
      var fb := FrameBest(students, look, frames[g.value.index]);
      Some(Candidate(fb.value.index, g.value.score))
  }

  /** The id of the winning student, 0 when no frame has a candidate. */
  function WinnerId(users: seq<User>, look: MultiLookups, frames: seq<Option<Vector>>): Id
  {
    var w := MultiWinner(users, look, frames);
    if w.Some? then Students(users)[w.value.index].id else 0
  }

  /** Outcome and new ledger of `kiosk_mark_attendance_multicam`; the ledger
      is the list of (session, student) pairs already marked. */
  function MultiEffect(sessions: seq<ClassSession>, users: seq<User>, sessionId: Id,
                       uploads: seq<FrameScan>, look: MultiLookups, threshold: real,
                       marks: seq<(Id, Id)>): (MultiResult, seq<(Id, Id)>)
  {
    if Find(sessions, (s: ClassSession) => s.id == sessionId).None? then (MultiSessionNotFound, marks)
    else if AnyUnreadable(uploads) then (MultiInternalError, marks)
    else
      var frames := Faces(uploads);
      var w := MultiWinner(users, look, frames);
      if w.None? then (FramesNoFace, marks)
      else
        var sid := WinnerId(users, look, frames);
        var score := w.value.score;
        if !look.userExists(sid) then (IdentityUnresolved, marks)
        else if !look.isEnrolled(sid) then (StudentNotEnrolled(sid), marks)
        else if (sessionId, sid) in marks then (StudentAlreadyMarked(sid), marks)
        else if score < threshold then (BelowThreshold(sid, score), marks)
        else (StudentMatched(sid, score), marks + [(sessionId, sid)])
  }

  method KioskMarkAttendanceMulticam(sessions: seq<ClassSession>, users: seq<User>, sessionId: Id,
                                     uploads: seq<FrameScan>, look: MultiLookups, threshold: real,
                                     marks: seq<(Id, Id)>)
    returns (r: MultiResult, marks': seq<(Id, Id)>)
    ensures (r, marks') == MultiEffect(sessions, users, sessionId, uploads, look, threshold, marks)
  {
    var session := Find(sessions, (s: ClassSession) => s.id == sessionId);
    if session.None? {
      return MultiSessionNotFound, marks;
    }
    var students := Students(users);
    var failed, global, globalStudent := BestFrame(students, look, uploads);
    if failed {
      return MultiInternalError, marks;
    }
    if global.None? {
      return FramesNoFace, marks;
    }
    var sid := students[globalStudent].id;
    var score := global.value.score;
    if !look.userExists(sid) {
      return IdentityUnresolved, marks;
    }
    if !look.isEnrolled(sid) {
      return StudentNotEnrolled(sid), marks;
    }
    if (sessionId, sid) in marks {
      return StudentAlreadyMarked(sid), marks;
    }
    if score < threshold {
      return BelowThreshold(sid, score), marks;
    }
    r, marks' := StudentMatched(sid, score), marks + [(sessionId, sid)];
  }

  /** The multi-frame ladder, every answer stated of the winner: with the
      session found, an unreadable frame gives the 500; no candidate in any
      frame gives the no-face answer; otherwise the winning
      student's user row, enrolment, the ledger and the threshold are checked
      in that order (the last rungs are in `MultiVerdict`). */
  lemma MultiLadder(sessions: seq<ClassSession>, users: seq<User>, sessionId: Id,
                    uploads: seq<FrameScan>, look: MultiLookups, threshold: real,
                    marks: seq<(Id, Id)>)
    ensures var (r, m) := MultiEffect(sessions, users, sessionId, uploads, look, threshold, marks);
      var frames := Faces(uploads);
      var found := (exists i :: 0 <= i < |sessions| && sessions[i].id == sessionId) && !AnyUnreadable(uploads);
      var w := MultiWinner(users, look, frames);
      var sid := WinnerId(users, look, frames);
      && (r.MultiSessionNotFound? <==> forall i :: 0 <= i < |sessions| ==> sessions[i].id != sessionId)
      && (r.MultiInternalError? <==>
            (exists i :: 0 <= i < |sessions| && sessions[i].id == sessionId)
            && exists i :: 0 <= i < |uploads| && uploads[i].Unreadable?)
      && (r.FramesNoFace? <==> found && w.None?)
      && (r.IdentityUnresolved? <==> found && w.Some? && !look.userExists(sid))
      && (r.StudentNotEnrolled? <==> found && w.Some? && look.userExists(sid) && !look.isEnrolled(sid))
  {
    MultiWinningFrame(users, Faces(uploads), look);
  }

  /** The ladder's last rungs: an enrolled winner is reported as already
      marked, below the threshold or matched, in that order; every answer
      about a student names the winner, and only a match appends to the
      ledger, exactly one pair. */
  lemma MultiVerdict(sessions: seq<ClassSession>, users: seq<User>, sessionId: Id,
                     uploads: seq<FrameScan>, look: MultiLookups, threshold: real,
                     marks: seq<(Id, Id)>)
    ensures var (r, m) := MultiEffect(sessions, users, sessionId, uploads, look, threshold, marks);
      var frames := Faces(uploads);
      var found := (exists i :: 0 <= i < |sessions| && sessions[i].id == sessionId) && !AnyUnreadable(uploads);
      var w := MultiWinner(users, look, frames);
      var sid := WinnerId(users, look, frames);
      && (r.StudentAlreadyMarked? <==>
            found && w.Some? && look.userExists(sid) && look.isEnrolled(sid) && (sessionId, sid) in marks)
      && (r.BelowThreshold? <==>
            found && w.Some? && look.userExists(sid) && look.isEnrolled(sid) && (sessionId, sid) !in marks
            && w.value.score < threshold)
      && (r.StudentMatched? <==>
            found && w.Some? && look.userExists(sid) && look.isEnrolled(sid) && (sessionId, sid) !in marks
            && w.value.score >= threshold)
      && ((r.StudentNotEnrolled? || r.StudentAlreadyMarked? || r.BelowThreshold? || r.StudentMatched?) ==>
            r.studentId == sid)
      && ((r.BelowThreshold? || r.StudentMatched?) ==> w.Some? && r.score == w.value.score)
      && (r.StudentMatched? ==> m == marks + [(sessionId, sid)])
      && (!r.StudentMatched? ==> m == marks)
  {
    MultiWinningFrame(users, Faces(uploads), look);
  }

  /** The no-face answer, stated of the frames: the session is found, every
      frame is an image, and no frame has a candidate. */
  lemma MultiNoFace(sessions: seq<ClassSession>, users: seq<User>, sessionId: Id,
                    uploads: seq<FrameScan>, look: MultiLookups, threshold: real,
                    marks: seq<(Id, Id)>)
    ensures MultiEffect(sessions, users, sessionId, uploads, look, threshold, marks).0.FramesNoFace?
      <==> && (exists i :: 0 <= i < |sessions| && sessions[i].id == sessionId)
           && (forall i :: 0 <= i < |uploads| ==> uploads[i].Read?)
           && (forall f :: 0 <= f < |uploads| ==> FrameBest(Students(users), look, Faces(uploads)[f]).None?)
  {
    MultiWinningFrame(users, Faces(uploads), look);
  }

  /** The winner is the candidate of the first frame reaching the highest
      frame score: a later frame replaces the running best only when its
      score is strictly higher.  There is a winner exactly when some frame
      has a candidate. */
  lemma MultiWinningFrame(users: seq<User>, frames: seq<Option<Vector>>, look: MultiLookups)
    ensures var tops := FrameTops(Students(users), look, frames);
            var w := MultiWinner(users, look, frames);
      && (w.None? <==> forall f :: 0 <= f < |frames| ==> FrameBest(Students(users), look, frames[f]).None?)
      && (w.Some? ==>
            exists g ::
              && 0 <= g < |frames|
              && FrameBest(Students(users), look, frames[g]) == Some(w.value)
              && (forall f :: 0 <= f < g && tops[f].Some? ==> tops[f].value < w.value.score)
              && (forall f :: g < f < |tops| && tops[f].Some? ==> tops[f].value <= w.value.score))
  {
    var tops := FrameTops(Students(users), look, frames);
    LeaderIsFirstMaximum(tops);
    forall f | 0 <= f < |frames| && FrameBest(Students(users), look, frames[f]).Some?
      ensures tops[f].Some? && tops[f].value > FLOOR
    {
      var fr := frames[f].value;
      LeaderIsFirstMaximum(Map(Students(users), (u: User) => MultiScore(look, fr, u)));
    }
    var g := Leader(tops);
    if g.Some? {
      var k := g.value.index;
      assert FrameBest(Students(users), look, frames[k]) == Some(MultiWinner(users, look, frames).value);
    }
  }

  /** The multi-frame endpoint never records a (session, student) pair twice. */
  lemma MultiKeepsMarksUnique(sessions: seq<ClassSession>, users: seq<User>, sessionId: Id,
                              uploads: seq<FrameScan>, look: MultiLookups, threshold: real,
                              marks: seq<(Id, Id)>)
    requires UniqueBy(marks, (m: (Id, Id)) => m)
    ensures UniqueBy(MultiEffect(sessions, users, sessionId, uploads, look, threshold, marks).1, (m: (Id, Id)) => m)
  {
    var (r, m) := MultiEffect(sessions, users, sessionId, uploads, look, threshold, marks);
    MultiVerdict(sessions, users, sessionId, uploads, look, threshold, marks);
    if r.StudentMatched? {
      AppendFreshKey(marks, (sessionId, r.studentId), (m: (Id, Id)) => m);
    }
  }
}
