/** The recognition endpoints of backend/routers/recognition.py over the
    integer-keyed tables: training the classifier from every stored
    embedding, and the early-return ladder that recognises an uploaded photo
    and marks attendance in the first flagged session. */
module RecognitionRouter {
  import opened Common
  import opened Schema
  import AttendanceCrud
  import SessionsCrud
  import EmbeddingsCrud
  import RS = RecognitionService

  /** An uploaded photo as the endpoint sees it after reading and decoding:
      no bytes, bytes that do not decode, or the faces the detector finds. */
  datatype Upload = EmptyFile | Undecodable | Decoded(faces: seq<RS.DetectedFace>)

  datatype RecognitionResponse = RecognitionResponse(
    success: bool,
    message: Option<string>,
    student: Option<string>,
    enrollmentNo: Option<string>)

  datatype RecognizeOutcome = Responded(response: RecognitionResponse) | InternalError   // HTTP 500

  datatype TrainOutcome = NoTrainingData | Trained(facesEncoded: nat)                    // HTTP 400 | 200

  const EMPTY_IMAGE: string := "Empty image file"
  const INVALID_IMAGE: string := "Invalid or unsupported image"
  const NOT_RECOGNIZED: string := "Face not recognized"
  const STUDENT_NOT_FOUND: string := "Student not found in database"
  const NO_ACTIVE_SESSION: string := "No active session found"
  const ALREADY_MARKED: string := "Attendance already marked for this session"

  function Failure(message: string): RecognizeOutcome
  {
    Responded(RecognitionResponse(false, Some(message), None, None))
  }

  /** Python's rendering of an optional string inside an f-string. */
  function Shown(s: Option<string>): string
  {
    if s.None? then "None" else s.value
  }

  /** The `student` field of a successful response: `name (enrollment_no)`. */
  function StudentLabel(s: Student): string
  {
    s.name + " (" + Shown(s.enrollmentNo) + ")"
  }

  /** What `recognize_face` answers and the ledger it leaves.  `appLoaded`
      and `classifier` are the service's state; without a loaded detector
      the embedding step raises something other than a validation error. */
  function RecognizeEffect(students: seq<Student>, sessions: seq<AttendanceSession>,
                           records: seq<AttendanceRecord>, appLoaded: bool,
                           classifier: Option<RS.Classifier>, predict: (RS.Classifier, Vector) -> int,
                           upload: Upload, newId: nat, now: int): (RecognizeOutcome, seq<AttendanceRecord>)
  {
    if upload.EmptyFile? then (Failure(EMPTY_IMAGE), records)
    else if upload.Undecodable? then (Failure(INVALID_IMAGE), records)
    else if !appLoaded then (InternalError, records)
    else match RS.GenerateEmbedding(upload.faces)
      case Err(e) => (Failure(e), records)
      case Ok(embedding) =>
        if classifier.None? then (Failure(NOT_RECOGNIZED), records)
        else
          var studentId := predict(classifier.value, embedding);
          match Find(students, (s: Student) => s.id == studentId)
          case None => (Failure(STUDENT_NOT_FOUND), records)
          case Some(student) =>
            var active := SessionsCrud.GetActiveSessions(sessions);
            if active == [] then (Failure(NO_ACTIVE_SESSION), records)
            else
              var session := active[0];
              if AttendanceCrud.CheckExistingAttendance(records, student.id, session.id).Some? then
                (Failure(ALREADY_MARKED), records)
              else
                var rec := AttendanceRecord(newId, student.id, session.id, AttendanceCrud.DEFAULT_STATUS, now);
                (Responded(RecognitionResponse(true, None, Some(StudentLabel(student)), student.enrollmentNo)),
                 records + [rec])
  }

  method RecognizeFace(db: Database, service: RS.FaceRecognitionService,
                       predict: (RS.Classifier, Vector) -> int, upload: Upload, now: int)
    returns (r: RecognizeOutcome)
    modifies db`records, db`nextId
    ensures (r, db.records) == RecognizeEffect(db.students, db.sessions, old(db.records), service.appLoaded,
                                               service.classifier, predict, upload, old(db.nextId), now)
    ensures db.nextId == old(db.nextId) + |db.records| - |old(db.records)|
  {
    if upload.EmptyFile? {
      return Failure(EMPTY_IMAGE);
    }
    if upload.Undecodable? {
      return Failure(INVALID_IMAGE);
    }
    if !service.appLoaded {
      return InternalError;
    }
    var embedding := RS.GenerateEmbedding(upload.faces);
    if embedding.Err? {
      return Failure(embedding.error);
    }
    var predicted := service.RecognizeFace(embedding.value, predict);
    if predicted.None? {
      return Failure(NOT_RECOGNIZED);
    }
    var student := Find(db.students, (s: Student) => s.id == predicted.value);
    if student.None? {
      return Failure(STUDENT_NOT_FOUND);
    }
    var active := SessionsCrud.GetActiveSessions(db.sessions);
    if active == [] {
      return Failure(NO_ACTIVE_SESSION);
    }
    var session := active[0];
    if AttendanceCrud.CheckExistingAttendance(db.records, student.value.id, session.id).Some? {
      return Failure(ALREADY_MARKED);
    }
    var _ := AttendanceCrud.CreateAttendanceRecord(db, student.value.id, session.id, AttendanceCrud.DEFAULT_STATUS, now);
    r := Responded(RecognitionResponse(true, None, Some(StudentLabel(student.value)), student.value.enrollmentNo));
  }

  /** The recognition ladder: each failure carries its own message and
      writes nothing; a success is reported only for a recognised, stored
      student with no record yet in the first flagged session, and adds
      exactly one "Present" record for that pair. */
  lemma RecognizeLadder(students: seq<Student>, sessions: seq<AttendanceSession>,
                        records: seq<AttendanceRecord>, appLoaded: bool,
                        classifier: Option<RS.Classifier>, predict: (RS.Classifier, Vector) -> int,
                        upload: Upload, newId: nat, now: int)
    ensures var (r, t) := RecognizeEffect(students, sessions, records, appLoaded, classifier, predict, upload, newId, now);
      && (r == Failure(EMPTY_IMAGE) <==> upload.EmptyFile?)
      && (upload.Undecodable? ==> r == Failure(INVALID_IMAGE))
      && (r.InternalError? <==> upload.Decoded? && !appLoaded)
      && (upload.Decoded? && appLoaded && RS.GenerateEmbedding(upload.faces).Err? ==>
            r == Failure(RS.GenerateEmbedding(upload.faces).error))
      && (upload.Decoded? && appLoaded && RS.GenerateEmbedding(upload.faces).Ok? && classifier.None? ==>
            r == Failure(NOT_RECOGNIZED))
      && (r.Responded? && r.response.success <==>
            upload.Decoded? && appLoaded && RS.GenerateEmbedding(upload.faces).Ok? && classifier.Some?
            && var id := predict(classifier.value, RS.GenerateEmbedding(upload.faces).value);
               && (exists i :: 0 <= i < |students| && students[i].id == id)
               && (exists j :: 0 <= j < |sessions| && sessions[j].isActive)
               && var session := SessionsCrud.GetActiveSessions(sessions)[0];
                  forall k :: 0 <= k < |records| ==> !AttendanceCrud.IsFor(records[k], id, session.id))
      && (r.Responded? && r.response.success ==>
            |t| == |records| + 1 && t[..|records|] == records
            && t[|records|].status == AttendanceCrud.DEFAULT_STATUS
            && t[|records|].studentId == predict(classifier.value, RS.GenerateEmbedding(upload.faces).value)
            && t[|records|].sessionId == SessionsCrud.GetActiveSessions(sessions)[0].id)
      && (!(r.Responded? && r.response.success) ==> t == records)
  {
    var (r, t) := RecognizeEffect(students, sessions, records, appLoaded, classifier, predict, upload, newId, now);
    if upload.Decoded? && appLoaded && RS.GenerateEmbedding(upload.faces).Ok? && classifier.Some? {
      var active := SessionsCrud.GetActiveSessions(sessions);
      if exists j :: 0 <= j < |sessions| && sessions[j].isActive {
        var j :| 0 <= j < |sessions| && sessions[j].isActive;
        assert sessions[j] in active;
      }
      if r.Responded? && r.response.success {
        assert t[..|records|] == records;
      }
    }
  }

  /** Each failure message is given exactly when its check is the first to
      fail: an undecodable image, a photo with no classifier fitted, a
      prediction naming no stored student, no flagged session, and a record
      already on file for the student in the first flagged session. */
  lemma RecognizeMessages(students: seq<Student>, sessions: seq<AttendanceSession>,
                          records: seq<AttendanceRecord>, appLoaded: bool,
                          classifier: Option<RS.Classifier>, predict: (RS.Classifier, Vector) -> int,
                          upload: Upload, newId: nat, now: int)
    ensures var (r, t) := RecognizeEffect(students, sessions, records, appLoaded, classifier, predict, upload, newId, now);
      var embedded := upload.Decoded? && appLoaded && RS.GenerateEmbedding(upload.faces).Ok?;
      var id := if embedded && classifier.Some? then predict(classifier.value, RS.GenerateEmbedding(upload.faces).value) else 0;
      var known := embedded && classifier.Some? && exists i :: 0 <= i < |students| && students[i].id == id;
      var live := known && exists j :: 0 <= j < |sessions| && sessions[j].isActive;
      && (r == Failure(INVALID_IMAGE) <==> upload.Undecodable?)
      && (r == Failure(NOT_RECOGNIZED) <==> embedded && classifier.None?)
      && (r == Failure(STUDENT_NOT_FOUND) <==>
            embedded && classifier.Some? && forall i :: 0 <= i < |students| ==> students[i].id != id)
      && (r == Failure(NO_ACTIVE_SESSION) <==>
            known && forall j :: 0 <= j < |sessions| ==> !sessions[j].isActive)
      && (r == Failure(ALREADY_MARKED) <==>
            live && exists k :: 0 <= k < |records|
                      && AttendanceCrud.IsFor(records[k], id, SessionsCrud.GetActiveSessions(sessions)[0].id))
  {
    var active := SessionsCrud.GetActiveSessions(sessions);
    if exists j :: 0 <= j < |sessions| && sessions[j].isActive {
      var j :| 0 <= j < |sessions| && sessions[j].isActive;
      assert sessions[j] in active;
    }
    if upload.Decoded? {
      var e := RS.GenerateEmbedding(upload.faces);
      assert e.Err? ==> e.error in {RS.NO_FACE, RS.MULTIPLE_FACES, RS.FACE_TOO_SMALL};
    }
  }

  /** The session used is the first flagged one, whatever its end time. */
  lemma RecognizeUsesFirstFlaggedSession(sessions: seq<AttendanceSession>)
    requires exists j :: 0 <= j < |sessions| && sessions[j].isActive
    ensures SessionsCrud.GetActiveSessions(sessions) != []
    ensures var s := SessionsCrud.GetActiveSessions(sessions)[0];
      s.isActive && exists j :: 0 <= j < |sessions| && sessions[j] == s
                     && forall i :: 0 <= i < j ==> !sessions[i].isActive
    decreases |sessions|
  {
    if sessions[0].isActive {
      assert SessionsCrud.GetActiveSessions(sessions)[0] == sessions[0];
    } else {
      RecognizeUsesFirstFlaggedSession(sessions[1..]);
      assert SessionsCrud.GetActiveSessions(sessions) == SessionsCrud.GetActiveSessions(sessions[1..]);
      var s := SessionsCrud.GetActiveSessions(sessions)[0];
      var j :| 0 <= j < |sessions[1..]| && sessions[1..][j] == s && forall i :: 0 <= i < j ==> !sessions[1..][i].isActive;
      assert sessions[j + 1] == s;
    }
  }

  /** Recognition keeps the ledger at one record per (student, session). */
  lemma RecognizeKeepsOneRecordPerPair(students: seq<Student>, sessions: seq<AttendanceSession>,
                                       records: seq<AttendanceRecord>, appLoaded: bool,
                                       classifier: Option<RS.Classifier>, predict: (RS.Classifier, Vector) -> int,
                                       upload: Upload, newId: nat, now: int)
    requires UniqueBy(records, AttendanceCrud.Key)
    ensures UniqueBy(RecognizeEffect(students, sessions, records, appLoaded, classifier, predict, upload, newId, now).1,
                     AttendanceCrud.Key)
  {
    var (r, t) := RecognizeEffect(students, sessions, records, appLoaded, classifier, predict, upload, newId, now);
    if r.Responded? && r.response.success {
      var embedding := RS.GenerateEmbedding(upload.faces).value;
      var id := predict(classifier.value, embedding);
      var student := Find(students, (s: Student) => s.id == id).value;
      var session := SessionsCrud.GetActiveSessions(sessions)[0];
      var rec := AttendanceRecord(newId, student.id, session.id, AttendanceCrud.DEFAULT_STATUS, now);
      AttendanceCrud.CreateAfterCheckKeepsUnique(records, rec);
    }
  }

  // -------------------------------------------------------------- train

  /** `train_face_model`: refuses when no contributing student has an
      embedding; otherwise refits the classifier on the parallel lists and
      reports how many embeddings it used. */
  method TrainFaceModel(db: Database, service: RS.FaceRecognitionService) returns (r: TrainOutcome)
    modifies service`classifier
    ensures var rows := EmbeddingsCrud.TrainingRows(Filter(db.students, EmbeddingsCrud.Contributes), db.embeddings);
      && (r.NoTrainingData? <==> rows == [])
      && (r.NoTrainingData? ==> service.classifier == old(service.classifier))
      && (r.Trained? ==>
            && r.facesEncoded == |rows|
            && service.classifier.Some?
            && service.classifier.value.embeddings == Map(rows, (e: FaceEmbedding) => e.embedding)
            && service.classifier.value.labels == Map(rows, (e: FaceEmbedding) => e.studentId as int))
  {
    var embeddings, labels := EmbeddingsCrud.GetAllEmbeddingsForTraining(db.students, db.embeddings);
    if embeddings == [] {
      return NoTrainingData;
    }
    var _ := service.TrainClassifier(embeddings, labels);
    r := Trained(|embeddings|);
  }
}
