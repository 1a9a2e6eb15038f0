/** The student endpoints of backend/routers/students.py over the
    integer-keyed tables: registration with a unique enrollment number, and
    the training-photo upload that stores one embedding and bumps the
    student's photo count. */
module StudentsRouter {
  import opened Common
  import opened Schema
  import EmbeddingsCrud
  import RS = RecognitionService

  datatype StudentCreate = StudentCreate(name: string, email: string, enrollmentNo: string)

  datatype AddOutcome =
    | DuplicateEnrollment             // HTTP 400 "Enrollment number already exists"
    | EmailTaken                      // HTTP 500: the insert breaks the unique e-mail column
    | Added(student: Student)

  /** An uploaded photo after reading and decoding. */
  datatype Upload = EmptyFile | Undecodable | Decoded(faces: seq<RS.DetectedFace>)

  datatype UploadOutcome =
    | StudentNotFound                 // HTTP 404
    | EmptyUpload                     // HTTP 400 "Empty file uploaded"
    | CorruptImage                    // HTTP 400 "Unsupported or corrupt image file"
    | Rejected(message: string)       // HTTP 400 with the validation message
    | ProcessingError                 // HTTP 500
    | Uploaded(photoCount: int)

  /** `get_student_by_enrollment`: the first student with that number. */
  function ByEnrollment(students: seq<Student>, enrollmentNo: string): (r: Option<nat>)
    ensures r.None? <==> forall i :: 0 <= i < |students| ==> students[i].enrollmentNo != Some(enrollmentNo)
    ensures r.Some? ==> r.value < |students| && students[r.value].enrollmentNo == Some(enrollmentNo)
  {
    FirstIndex(students, (s: Student) => s.enrollmentNo == Some(enrollmentNo))
  }

  function EnrollmentKey(s: Student): Option<string>
  {
    s.enrollmentNo
  }

  function EmailKey(s: Student): Option<string>
  {
    s.email
  }

  /** What `add_student` does to the student table.  Only the enrollment
      number is checked; an e-mail already on file makes the insert fail on
      the column's unique constraint, which nothing catches, and the
      transaction writes nothing. */
  function AddEffect(students: seq<Student>, data: StudentCreate, newId: nat): (AddOutcome, seq<Student>)
  {
    if ByEnrollment(students, data.enrollmentNo).Some? then (DuplicateEnrollment, students)
    else if exists i :: 0 <= i < |students| && students[i].email == Some(data.email) then (EmailTaken, students)
    else
      var s := Student(newId, data.name, Some(data.email), Some(data.enrollmentNo), 0);
      (Added(s), students + [s])
  }

  method AddStudent(db: Database, data: StudentCreate) returns (r: AddOutcome)
    modifies db`students, db`nextId
    ensures (r, db.students) == AddEffect(old(db.students), data, old(db.nextId))
    ensures db.nextId == old(db.nextId) + (if r.Added? then 1 else 0)
  {
    var existing := ByEnrollment(db.students, data.enrollmentNo);
    if existing.Some? {
      return DuplicateEnrollment;
    }
    var sameEmail := FirstIndex(db.students, (s: Student) => s.email == Some(data.email));
    if sameEmail.Some? {
      return EmailTaken;
    }
    var s := Student(db.nextId, data.name, Some(data.email), Some(data.enrollmentNo), 0);
    db.students := db.students + [s];
    db.nextId := db.nextId + 1;
    r := Added(s);
  }

  /** A taken enrollment number is refused with a 400, a taken e-mail with
      the constraint's 500, and neither writes anything; otherwise exactly one
      student with no photos is added, so enrollment numbers and e-mails stay
      unique. */
  lemma AddKeepsEnrollmentUnique(students: seq<Student>, data: StudentCreate, newId: nat)
    requires UniqueBy(students, EnrollmentKey) && UniqueBy(students, EmailKey)
    ensures var (r, t) := AddEffect(students, data, newId);
      && UniqueBy(t, EnrollmentKey) && UniqueBy(t, EmailKey)
      && (r.DuplicateEnrollment? <==> exists i :: 0 <= i < |students| && students[i].enrollmentNo == Some(data.enrollmentNo))
      && (r.EmailTaken? <==>
            !r.DuplicateEnrollment? && exists i :: 0 <= i < |students| && students[i].email == Some(data.email))
      && (!r.Added? ==> t == students)
      && (r.Added? ==> t == students + [r.student] && r.student.photoCount == 0 && r.student.name == data.name
                       && r.student.email == Some(data.email) && r.student.enrollmentNo == Some(data.enrollmentNo))
  {
    var (r, t) := AddEffect(students, data, newId);
    if r.Added? {
      AppendFreshKey(students, r.student, EnrollmentKey);
      AppendFreshKey(students, r.student, EmailKey);
    }
  }

  // ------------------------------------------------------------ upload

  /** What `upload_student_image` answers and the student and embedding
      tables it leaves. */
  function UploadEffect(students: seq<Student>, embs: seq<FaceEmbedding>, appLoaded: bool,
                        enrollmentNo: string, upload: Upload, newId: nat)
    : (UploadOutcome, seq<Student>, seq<FaceEmbedding>)
  {
    match ByEnrollment(students, enrollmentNo)
    case None => (StudentNotFound, students, embs)
    case Some(k) =>
      if upload.EmptyFile? then (EmptyUpload, students, embs)
      else if upload.Undecodable? then (CorruptImage, students, embs)
      else if !appLoaded then (ProcessingError, students, embs)
      else match RS.GenerateEmbedding(upload.faces)
        case Err(e) => (Rejected(e), students, embs)
        case Ok(v) =>
          var s := students[k];
          var count := s.photoCount + 1;
          (Uploaded(count), students[k := s.(photoCount := count)], embs + [FaceEmbedding(newId, s.id, v)])
  }

  method UploadStudentImage(db: Database, service: RS.FaceRecognitionService, enrollmentNo: string, upload: Upload)
    returns (r: UploadOutcome)
    modifies db`students, db`embeddings, db`nextId
    ensures (r, db.students, db.embeddings)
         == UploadEffect(old(db.students), old(db.embeddings), service.appLoaded, enrollmentNo, upload, old(db.nextId))
    ensures db.nextId == old(db.nextId) + (if r.Uploaded? then 1 else 0)
  {
    var k := ByEnrollment(db.students, enrollmentNo);
    if k.None? {
      return StudentNotFound;
    }
    if upload.EmptyFile? {
      return EmptyUpload;
    }
    if upload.Undecodable? {
      return CorruptImage;
    }
    if !service.appLoaded {
      return ProcessingError;
    }
    var embedding := RS.GenerateEmbedding(upload.faces);
    if embedding.Err? {
      return Rejected(embedding.error);
    }
    var student := db.students[k.value];
    var _ := EmbeddingsCrud.SaveEmbedding(db, student.id, embedding.value);
    db.students := db.students[k.value := student.(photoCount := student.photoCount + 1)];
    r := Uploaded(student.photoCount + 1);
  }

  /** The upload ladder, each answer exactly when its checks come out so:
      an unknown number, an empty file, a corrupt image, a service whose
      model was never loaded or a rejected photo writes nothing; a valid
      photo of a known student is stored as one embedding for that student,
      raises exactly that student's photo count by one and reports the new
      count. */
  lemma UploadLadder(students: seq<Student>, embs: seq<FaceEmbedding>, appLoaded: bool,
                     enrollmentNo: string, upload: Upload, newId: nat)
    ensures var (r, ss, es) := UploadEffect(students, embs, appLoaded, enrollmentNo, upload, newId);
      var found := exists i :: 0 <= i < |students| && students[i].enrollmentNo == Some(enrollmentNo);
      && (r.StudentNotFound? <==> forall i :: 0 <= i < |students| ==> students[i].enrollmentNo != Some(enrollmentNo))
      && (r.EmptyUpload? <==> found && upload.EmptyFile?)
      && (r.CorruptImage? <==> found && upload.Undecodable?)
      && (r.ProcessingError? <==> found && upload.Decoded? && !appLoaded)
      && (r.Rejected? <==> found && upload.Decoded? && appLoaded && RS.GenerateEmbedding(upload.faces).Err?)
      && (r.Rejected? ==> r.message == RS.GenerateEmbedding(upload.faces).error)
      && (r.Uploaded? <==> found && upload.Decoded? && appLoaded && RS.GenerateEmbedding(upload.faces).Ok?)
      && (!r.Uploaded? ==> ss == students && es == embs)
      && (r.Uploaded? ==>
            exists k :: 0 <= k < |students| && students[k].enrollmentNo == Some(enrollmentNo)
              && r.photoCount == students[k].photoCount + 1
              && ss == students[k := students[k].(photoCount := r.photoCount)]
              && es == embs + [FaceEmbedding(newId, students[k].id, RS.GenerateEmbedding(upload.faces).value)])
  {
  }

  /** Photo counts agree with the stored embeddings: each student's count is
      the number of embeddings it owns. */
  ghost predicate CountsMatch(students: seq<Student>, embs: seq<FaceEmbedding>)
  {
    forall i :: 0 <= i < |students| ==> students[i].photoCount == |EmbeddingsCrud.OwnedBy(embs, students[i].id)|
  }

  function IdOf(s: Student): nat
  {
    s.id
  }

  /** With unique student ids, an upload keeps photo counts in step with
      the embeddings stored. */
  lemma UploadKeepsCountsMatching(students: seq<Student>, embs: seq<FaceEmbedding>, appLoaded: bool,
                                  enrollmentNo: string, upload: Upload, newId: nat)
    requires UniqueBy(students, IdOf)
    requires CountsMatch(students, embs)
    ensures var (_, ss, es) := UploadEffect(students, embs, appLoaded, enrollmentNo, upload, newId);
      CountsMatch(ss, es)
  {
    var (r, ss, es) := UploadEffect(students, embs, appLoaded, enrollmentNo, upload, newId);
    if r.Uploaded? {
      var k := ByEnrollment(students, enrollmentNo).value;
      var e := es[|embs|];
      assert es == embs + [e];
      forall i | 0 <= i < |ss| ensures ss[i].photoCount == |EmbeddingsCrud.OwnedBy(es, ss[i].id)| {
        var p := (x: FaceEmbedding) => x.studentId == students[i].id;
        FilterAppend(embs, [e], p);
        assert Filter([e], p) == (if p(e) then [e] else []) + Filter([], p);
        if i != k {
          assert IdOf(students[i]) != IdOf(students[k]);
        }
      }
    }
  }
}
