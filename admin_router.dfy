/** The administration endpoints of backend/routers/admin.py over the
    UUID-keyed tables: user creation with unique e-mail and enrollment
    number, the paged user list with each user's subjects, bulk training
    photos, and idempotent course enrolment.  Password hashing is an
    abstract function. */
module AdminRouter {
  import opened Common
  import opened Models

  datatype UserCreate = UserCreate(
    email: string,
    password: string,
    fullName: Option<string>,
    role: Role,
    enrollmentNo: Option<string>,
    semester: Option<int>)

  /** `EnrollmentConstraint` is the unhandled IntegrityError (HTTP 500) the
      unique enrollment_no column raises at commit; nothing is stored. */
  datatype CreateUserOutcome = EmailExists | EnrollmentExists | EnrollmentConstraint | Created(user: User)   // 400 | 400 | 500 | 200

  /** The enrollment numbers the endpoint treats as "none given". */
  predicate NoEnrollment(e: Option<string>)
  {
    e.None? || e.value == "" || e.value == "null"
  }

  /** The database's unique constraints on users: e-mail, and enrollment
      number among the rows that have one. */
  ghost predicate UsersUnique(users: seq<User>)
  {
    forall i, j :: 0 <= i < j < |users| ==>
      users[i].email != users[j].email
      && (users[i].enrollmentNo.Some? ==> users[i].enrollmentNo != users[j].enrollmentNo)
  }

  /** `create_user` as written: the enrollment number is stored as given,
      even when it is one of the values the check skips; the database then
      refuses a second row with the same non-null number. */
  function CreateUserEffect(users: seq<User>, input: UserCreate, hash: string -> string, newId: Id)
    : (CreateUserOutcome, seq<User>)
  {
    if Find(users, (u: User) => u.email == input.email).Some? then (EmailExists, users)
    else if !NoEnrollment(input.enrollmentNo)
         && Find(users, (u: User) => u.enrollmentNo == input.enrollmentNo).Some? then (EnrollmentExists, users)
    else if input.enrollmentNo.Some?
         && Find(users, (u: User) => u.enrollmentNo == input.enrollmentNo).Some? then (EnrollmentConstraint, users)
    else
      var user := User(newId, input.email, input.enrollmentNo, hash(input.password), input.fullName,
                       input.role, input.semester);
      (Created(user), users + [user])
  }

  method CreateUser(db: Store, input: UserCreate, hash: string -> string) returns (r: CreateUserOutcome)
    modifies db`users, db`nextId
    ensures (r, db.users) == CreateUserEffect(old(db.users), input, hash, old(db.nextId))
    ensures db.nextId == old(db.nextId) + (if r.Created? then 1 else 0)
  {
    var byEmail := Find(db.users, (u: User) => u.email == input.email);
    if byEmail.Some? {
      return EmailExists;
    }
    if !NoEnrollment(input.enrollmentNo) {
      var byEnrollment := Find(db.users, (u: User) => u.enrollmentNo == input.enrollmentNo);
      if byEnrollment.Some? {
        return EnrollmentExists;
      }
    }
    if input.enrollmentNo.Some? {
      // the commit fails on the unique column and the session is discarded
      var clash := Find(db.users, (u: User) => u.enrollmentNo == input.enrollmentNo);
      if clash.Some? {
        return EnrollmentConstraint;
      }
    }
    var user := User(db.nextId, input.email, input.enrollmentNo, hash(input.password), input.fullName,
                     input.role, input.semester);
    db.users := db.users + [user];
    db.nextId := db.nextId + 1;
    r := Created(user);
  }

  /** A taken e-mail is refused first; a real enrollment number that is
      taken is refused next; a skipped value ("" or "null") that is taken
      fails at the database; a created user carries the request's fields and
      the hash of the password, never the password itself. */
  lemma CreateUserOutcomes(users: seq<User>, input: UserCreate, hash: string -> string, newId: Id)
    ensures var (r, t) := CreateUserEffect(users, input, hash, newId);
      && (r.EmailExists? <==> exists i :: 0 <= i < |users| && users[i].email == input.email)
      && (r.EnrollmentExists? <==>
            (forall i :: 0 <= i < |users| ==> users[i].email != input.email)
            && !NoEnrollment(input.enrollmentNo)
            && exists i :: 0 <= i < |users| && users[i].enrollmentNo == input.enrollmentNo)
      && (r.EnrollmentConstraint? <==>
            (forall i :: 0 <= i < |users| ==> users[i].email != input.email)
            && (input.enrollmentNo == Some("") || input.enrollmentNo == Some("null"))
            && exists i :: 0 <= i < |users| && users[i].enrollmentNo == input.enrollmentNo)
      && (!r.Created? ==> t == users)
      && (r.Created? ==> t == users + [r.user] && r.user.id == newId
                         && r.user.passwordHash == hash(input.password)
                         && r.user.email == input.email && r.user.enrollmentNo == input.enrollmentNo
                         && r.user.role == input.role)
  {
  }

  /** As written, the creation keeps e-mails and enrollment numbers unique:
      whatever the check lets through, the database refuses. */
  lemma CreateUserKeepsUnique(users: seq<User>, input: UserCreate, hash: string -> string, newId: Id)
    requires UsersUnique(users)
    ensures UsersUnique(CreateUserEffect(users, input, hash, newId).1)
  {
    var (r, t) := CreateUserEffect(users, input, hash, newId);
    CreateUserOutcomes(users, input, hash, newId);
    if r.Created? {
      forall i, j | 0 <= i < j < |t|
        ensures t[i].email != t[j].email && (t[i].enrollmentNo.Some? ==> t[i].enrollmentNo != t[j].enrollmentNo)
      {
        if j == |users| {
          assert t[i] == users[i];
        } else {
          assert t[i] == users[i] && t[j] == users[j];
        }
      }
    }
  }

  /** The skipped values are stored verbatim, so once a user holds
      enrollment number "", a second user created with "" passes the check
      and fails at the database with a 500, where storing the skipped value
      as none would have created it. */
  lemma CreateUserRefusesSecondEmpty(hash: string -> string)
    ensures var first := User(0, "a@x", Some(""), hash("p"), None, Student, None);
            var input := UserCreate("b@x", "q", None, Student, Some(""), None);
      && CreateUserEffect([first], input, hash, 1) == (EnrollmentConstraint, [first])
      && CreateUserNormalized([first], input, hash, 1).0.Created?
  {
    var first := User(0, "a@x", Some(""), hash("p"), None, Student, None);
    var input := UserCreate("b@x", "q", None, Student, Some(""), None);
    assert "a@x" != "b@x" by {
      assert "a@x"[0] == 'a' && "b@x"[0] == 'b';
    }
    assert first.enrollmentNo != None;
    CreateUserOutcomes([first], input, hash, 1);
    CreateUserOutcomes([first], input.(enrollmentNo := None), hash, 1);
  }

  /** `create_user` as evidently intended: a skipped enrollment number is
      stored as no enrollment number. */
  function CreateUserNormalized(users: seq<User>, input: UserCreate, hash: string -> string, newId: Id)
    : (CreateUserOutcome, seq<User>)
  {
    var stored := if NoEnrollment(input.enrollmentNo) then None else input.enrollmentNo;
    match CreateUserEffect(users, input.(enrollmentNo := stored), hash, newId)
    case (r, t) => (r, t)
  }

  /** The normalised creation never reaches the database's refusal, and it
      keeps e-mails and enrollment numbers unique. */
  lemma CreateUserNormalizedKeepsUnique(users: seq<User>, input: UserCreate, hash: string -> string, newId: Id)
    requires UsersUnique(users)
    ensures !CreateUserNormalized(users, input, hash, newId).0.EnrollmentConstraint?
    ensures UsersUnique(CreateUserNormalized(users, input, hash, newId).1)
  {
    var stored := if NoEnrollment(input.enrollmentNo) then None else input.enrollmentNo;
    var in2 := input.(enrollmentNo := stored);
    var (r, t) := CreateUserEffect(users, in2, hash, newId);
    CreateUserOutcomes(users, in2, hash, newId);
    if r.Created? {
      forall i, j | 0 <= i < j < |t|
        ensures t[i].email != t[j].email && (t[i].enrollmentNo.Some? ==> t[i].enrollmentNo != t[j].enrollmentNo)
      {
        if j == |users| {
          assert t[i] == users[i];
        } else {
          assert t[i] == users[i] && t[j] == users[j];
        }
      }
    }
  }

  // --------------------------------------------------------- list users

  datatype UserOut = UserOut(user: User, subjectIds: seq<Id>)

  /** The subjects a user is enrolled in, in enrolment-table order. */
  function SubjectIdsOf(enrollments: seq<CourseEnrollment>, userId: Id): (r: seq<Id>)
    ensures forall s :: s in r <==> exists e :: e in enrollments && e.userId == userId && e.subjectId == s
  {
    var mine := Filter(enrollments, (e: CourseEnrollment) => e.userId == userId);
    var r := Map(mine, (e: CourseEnrollment) => e.subjectId);
    forall s | s in r ensures exists e :: e in enrollments && e.userId == userId && e.subjectId == s {
      var k :| 0 <= k < |r| && r[k] == s;
      assert mine[k] in mine;
    }
    assert forall e :: e in mine ==> e.subjectId in r by {
      forall e | e in mine ensures e.subjectId in r {
        var k :| 0 <= k < |mine| && mine[k] == e;
        assert r[k] == e.subjectId;
      }
    }
    r
  }

  /** SQL `OFFSET skip LIMIT limit`. */
  function Page<T>(s: seq<T>, skip: nat, limit: nat): (r: seq<T>)
    ensures |r| == (if skip >= |s| then 0 else if |s| - skip < limit then |s| - skip else limit)
    ensures forall i :: 0 <= i < |r| ==> r[i] == s[skip + i]
  {
    if skip >= |s| then []
    else if |s| - skip < limit then s[skip..]
    else s[skip..skip + limit]
  }

  /** `list_users`: the requested page of users, each with its subject ids. */
  method ListUsers(users: seq<User>, enrollments: seq<CourseEnrollment>, skip: nat, limit: nat)
    returns (result: seq<UserOut>)
    ensures |result| == |Page(users, skip, limit)|
    ensures forall i :: 0 <= i < |result| ==>
      result[i].user == users[skip + i] && result[i].subjectIds == SubjectIdsOf(enrollments, users[skip + i].id)
  {
    var page := Page(users, skip, limit);
    result := [];
    var i := 0;
    while i < |page|
      invariant 0 <= i <= |page|
      invariant |result| == i
      invariant forall k :: 0 <= k < i ==>
        result[k].user == users[skip + k] && result[k].subjectIds == SubjectIdsOf(enrollments, users[skip + k].id)
    {
      var u := page[i];
      result := result + [UserOut(u, SubjectIdsOf(enrollments, u.id))];
      i := i + 1;
    }
  }

  // --------------------------------------------------------- train face

  /** What the face service makes of one upload: bytes that do not open as
      an image (the decoder raises), an image without a face, or the
      embedding of its largest face. */
  datatype Scan = NotAnImage | NoFace | Face(embedding: Vector)

  /** One uploaded training photo: where it is saved and what its scan gave. */
  datatype TrainFile = TrainFile(path: string, scan: Scan)

  /** `TrainInternalError` is the HTTP 500 of the decoder's exception, which
      nothing in `train_face` catches; the session is never committed. */
  datatype TrainFaceOutcome = UserNotFound | TrainInternalError | Counted(accepted: nat, rejected: nat, enrollmentNo: string)

  /** Some upload is not an image. */
  predicate AnyNotAnImage(files: seq<TrainFile>)
  {
    exists i :: 0 <= i < |files| && files[i].scan.NotAnImage?
  }

  /** The embedding rows stored for the accepted files, numbered from `firstId`. */
  function AcceptedRows(userId: Id, files: seq<TrainFile>, firstId: Id): (r: seq<FaceEmbedding>)
    ensures forall k :: 0 <= k < |r| ==> r[k].userId == userId && r[k].id == firstId + k
    decreases |files|
  {
    if files == [] then []
    else
      var rest := files[..|files| - 1];
      var f := files[|files| - 1];
      var before := AcceptedRows(userId, rest, firstId);
      before + (if f.scan.Face? then [FaceEmbedding(firstId + |before|, userId, f.scan.embedding, Some(f.path))] else [])
  }

  /** The number of files in which a face was found. */
  function CountAccepted(files: seq<TrainFile>): (n: nat)
    ensures n <= |files|
    decreases |files|
  {
    if files == [] then 0
    else CountAccepted(files[..|files| - 1]) + (if files[|files| - 1].scan.Face? then 1 else 0)
  }

  /** One row per accepted file, carrying that file's embedding. */
  lemma {:induction false} AcceptedRowsCount(userId: Id, files: seq<TrainFile>, firstId: Id)
    ensures |AcceptedRows(userId, files, firstId)| == CountAccepted(files)
    ensures forall e :: e in AcceptedRows(userId, files, firstId) ==>
      exists f :: f in files && f.scan == Face(e.embedding) && e.imagePath == Some(f.path)
    decreases |files|
  {
    if files != [] {
      var rest := files[..|files| - 1];
      AcceptedRowsCount(userId, rest, firstId);
      assert forall f :: f in rest ==> f in files;
    }
  }

  /** The rows are the accepted files in upload order: the k-th row carries
      the k-th file with a face, its embedding and its path, under the k-th
      id from `firstId`. */
  lemma {:induction false} AcceptedRowsInOrder(userId: Id, files: seq<TrainFile>, firstId: Id)
    ensures var rows := AcceptedRows(userId, files, firstId);
            var acc := Filter(files, (f: TrainFile) => f.scan.Face?);
      && |rows| == |acc|
      && forall k :: 0 <= k < |rows| ==>
           acc[k].scan.Face? && rows[k] == FaceEmbedding(firstId + k, userId, acc[k].scan.embedding, Some(acc[k].path))
    decreases |files|
  {
    if files != [] {
      var rest := files[..|files| - 1];
      var f := files[|files| - 1];
      AcceptedRowsInOrder(userId, rest, firstId);
      assert files == rest + [f];
      AcceptedFilterSnoc(rest, f);
      var before, accBefore := AcceptedRows(userId, rest, firstId), Filter(rest, (f: TrainFile) => f.scan.Face?);
      var rows, acc := AcceptedRows(userId, files, firstId), Filter(files, (f: TrainFile) => f.scan.Face?);
      if f.scan.Face? {
        forall k | 0 <= k < |rows|
          ensures acc[k].scan.Face? && rows[k] == FaceEmbedding(firstId + k, userId, acc[k].scan.embedding, Some(acc[k].path))
        {
          if k < |before| {
            assert rows[k] == before[k] && acc[k] == accBefore[k];
          }
        }
      }
    }
  }

  /** Appending an upload adds it to the accepted files exactly when it
      has a face. */
  lemma AcceptedFilterSnoc(rest: seq<TrainFile>, f: TrainFile)
    ensures Filter(rest + [f], (f: TrainFile) => f.scan.Face?)
            == Filter(rest, (f: TrainFile) => f.scan.Face?) + (if f.scan.Face? then [f] else [])
  {
    var p := (f: TrainFile) => f.scan.Face?;
    FilterAppend(rest, [f], p);
    assert Filter([f], p) == (if p(f) then [f] else []) + Filter([], p);
  }

  /** Processing one more file adds one row, with the next id, exactly when
      a face was found in it. */
  lemma AcceptedRowsStep(userId: Id, files: seq<TrainFile>, i: nat, firstId: Id)
    requires i < |files|
    ensures var before := AcceptedRows(userId, files[..i], firstId);
            var f := files[i];
      && CountAccepted(files[..i + 1]) == CountAccepted(files[..i]) + (if f.scan.Face? then 1 else 0)
      && AcceptedRows(userId, files[..i + 1], firstId)
         == before + (if f.scan.Face? then [FaceEmbedding(firstId + |before|, userId, f.scan.embedding, Some(f.path))] else [])
  {
    assert files[..i + 1][..i] == files[..i];
  }

  /** `train_face`: the first user with the enrollment number, then the
      uploads in order; the first upload that is not an image aborts the
      request before the commit, so no row is stored. */
  method TrainFace(db: Store, enrollmentNo: string, files: seq<TrainFile>) returns (r: TrainFaceOutcome)
    modifies db`embeddings, db`nextId
    ensures var found := FirstIndex(db.users, (u: User) => u.enrollmentNo == Some(enrollmentNo));
      && (r.UserNotFound? <==> found.None?)
      && (r.TrainInternalError? <==> found.Some? && AnyNotAnImage(files))
      && (!r.Counted? ==> db.embeddings == old(db.embeddings) && db.nextId == old(db.nextId))
      && (r.Counted? ==>
            && found.Some? && found.value < |db.users|
            && r.accepted + r.rejected == |files|
            && r.accepted == CountAccepted(files)
            && r.enrollmentNo == enrollmentNo
            && db.embeddings == old(db.embeddings) + AcceptedRows(db.users[found.value].id, files, old(db.nextId))
            && db.nextId == old(db.nextId) + r.accepted)
  {
    var found := FirstIndex(db.users, (u: User) => u.enrollmentNo == Some(enrollmentNo));
    if found.None? {
      return UserNotFound;
    }
    var k := found.value;
    var aborted, accepted, rejected := StoreAccepted(db, db.users[k].id, files);
    if aborted {
      return TrainInternalError;
    }
    r := Counted(accepted, rejected, enrollmentNo);
  }

  /** The loop of `train_face` over the uploaded files: one embedding row per
      file with a face, counting accepted and rejected files; an upload that
      is not an image aborts, and the uncommitted rows are discarded. */
  method StoreAccepted(db: Store, userId: Id, files: seq<TrainFile>) returns (aborted: bool, accepted: nat, rejected: nat)
    modifies db`embeddings, db`nextId
    ensures aborted <==> AnyNotAnImage(files)
    ensures aborted ==> db.embeddings == old(db.embeddings) && db.nextId == old(db.nextId)
    ensures !aborted ==>
      && accepted + rejected == |files| && accepted == CountAccepted(files)
      && db.embeddings == old(db.embeddings) + AcceptedRows(userId, files, old(db.nextId))
      && db.nextId == old(db.nextId) + accepted
  {
    var first := db.nextId;
    var start := db.embeddings;
    aborted, accepted, rejected := false, 0, 0;
    var i := 0;
    while i < |files|
      invariant 0 <= i <= |files|
      invariant forall k :: 0 <= k < i ==> !files[k].scan.NotAnImage?
      invariant accepted + rejected == i
      invariant accepted == CountAccepted(files[..i])
      invariant db.embeddings == start + AcceptedRows(userId, files[..i], first)
      invariant db.nextId == first + accepted
    {
      AcceptedRowsCount(userId, files[..i], first);
      AcceptedRowsStep(userId, files, i, first);
      var f := files[i];
      match f.scan {
        case NotAnImage =>
          db.embeddings, db.nextId := start, first;
          return true, 0, 0;
        case NoFace =>
          rejected := rejected + 1;
        case Face(v) =>
          db.embeddings := db.embeddings + [FaceEmbedding(db.nextId, userId, v, Some(f.path))];
          db.nextId := db.nextId + 1;
          accepted := accepted + 1;
      }
      i := i + 1;
    }
    assert files[..|files|] == files;
  }

  // ---------------------------------------------------- enroll subject

  datatype EnrollOutcome =
    | EnrollUserNotFound                                  // HTTP 404
    | EnrollSubjectNotFound                               // HTTP 404
    | AlreadyEnrolled(userId: Id, subjectId: Id)
    | Enrolled(userId: Id, subjectId: Id)

  function EnrollKey(e: CourseEnrollment): (Id, Id)
  {
    (e.userId, e.subjectId)
  }

  /** What `enroll_subject` answers and the enrolment table it leaves. */
  function EnrollEffect(users: seq<User>, subjects: seq<Subject>, enrollments: seq<CourseEnrollment>,
                        enrollmentNo: string, subjectCode: string, newId: Id): (EnrollOutcome, seq<CourseEnrollment>)
  {
    match Find(users, (u: User) => u.enrollmentNo == Some(enrollmentNo))
    case None => (EnrollUserNotFound, enrollments)
    case Some(user) =>
      match Find(subjects, (s: Subject) => s.code == subjectCode)
      case None => (EnrollSubjectNotFound, enrollments)
      case Some(subject) =>
        if Find(enrollments, (e: CourseEnrollment) => e.userId == user.id && e.subjectId == subject.id).Some? then
          (AlreadyEnrolled(user.id, subject.id), enrollments)
        else
          (Enrolled(user.id, subject.id), enrollments + [CourseEnrollment(newId, user.id, subject.id)])
  }

  method EnrollSubject(db: Store, enrollmentNo: string, subjectCode: string) returns (r: EnrollOutcome)
    modifies db`enrollments, db`nextId
    ensures (r, db.enrollments) == EnrollEffect(db.users, db.subjects, old(db.enrollments), enrollmentNo, subjectCode, old(db.nextId))
    ensures db.nextId == old(db.nextId) + (if r.Enrolled? then 1 else 0)
  {
    var user := Find(db.users, (u: User) => u.enrollmentNo == Some(enrollmentNo));
    if user.None? {
      return EnrollUserNotFound;
    }
    var subject := Find(db.subjects, (s: Subject) => s.code == subjectCode);
    if subject.None? {
      return EnrollSubjectNotFound;
    }
    var uid, sid := user.value.id, subject.value.id;
    var existing := Find(db.enrollments, (e: CourseEnrollment) => e.userId == uid && e.subjectId == sid);
    if existing.Some? {
      return AlreadyEnrolled(uid, sid);
    }
    db.enrollments := db.enrollments + [CourseEnrollment(db.nextId, uid, sid)];
    db.nextId := db.nextId + 1;
    r := Enrolled(uid, sid);
  }

  /** 404 for an unknown user, then for an unknown subject; an existing pair
      is reported and not duplicated; otherwise exactly one row is added. */
  lemma EnrollOutcomes(users: seq<User>, subjects: seq<Subject>, enrollments: seq<CourseEnrollment>,
                       enrollmentNo: string, subjectCode: string, newId: Id)
    ensures var (r, t) := EnrollEffect(users, subjects, enrollments, enrollmentNo, subjectCode, newId);
      && (r.EnrollUserNotFound? <==> forall i :: 0 <= i < |users| ==> users[i].enrollmentNo != Some(enrollmentNo))
      && (r.EnrollSubjectNotFound? <==>
            (exists i :: 0 <= i < |users| && users[i].enrollmentNo == Some(enrollmentNo))
            && forall j :: 0 <= j < |subjects| ==> subjects[j].code != subjectCode)
      && (r.AlreadyEnrolled? ==>
            t == enrollments
            && exists k :: 0 <= k < |enrollments| && EnrollKey(enrollments[k]) == (r.userId, r.subjectId))
      && (r.Enrolled? ==>
            t == enrollments + [CourseEnrollment(newId, r.userId, r.subjectId)]
            && forall k :: 0 <= k < |enrollments| ==> EnrollKey(enrollments[k]) != (r.userId, r.subjectId))
      && (r.EnrollUserNotFound? || r.EnrollSubjectNotFound? ==> t == enrollments)
  {
  }

  /** With both looked up, the pair acted on is the first user with that
      enrollment number and the first subject with that code; it is reported
      as already enrolled exactly when some row holds that pair, and enrolled
      otherwise. */
  lemma EnrollPair(users: seq<User>, subjects: seq<Subject>, enrollments: seq<CourseEnrollment>,
                   enrollmentNo: string, subjectCode: string, newId: Id, u: nat, j: nat)
    requires FirstIndex(users, (x: User) => x.enrollmentNo == Some(enrollmentNo)) == Some(u)
    requires FirstIndex(subjects, (s: Subject) => s.code == subjectCode) == Some(j)
    ensures var (r, t) := EnrollEffect(users, subjects, enrollments, enrollmentNo, subjectCode, newId);
      var pair := (users[u].id, subjects[j].id);
      && (r.AlreadyEnrolled? || r.Enrolled?)
      && (r.userId, r.subjectId) == pair
      && (r.AlreadyEnrolled? <==> exists k :: 0 <= k < |enrollments| && EnrollKey(enrollments[k]) == pair)
  {
    assert Find(users, (x: User) => x.enrollmentNo == Some(enrollmentNo)) == Some(users[u]);
    assert Find(subjects, (s: Subject) => s.code == subjectCode) == Some(subjects[j]);
  }

  /** Enrolling twice is the same as enrolling once: the repeat reports
      already_enrolled for the same pair and adds nothing. */
  lemma EnrollIdempotent(users: seq<User>, subjects: seq<Subject>, enrollments: seq<CourseEnrollment>,
                         enrollmentNo: string, subjectCode: string, id1: Id, id2: Id)
    ensures var (r1, t1) := EnrollEffect(users, subjects, enrollments, enrollmentNo, subjectCode, id1);
            var (r2, t2) := EnrollEffect(users, subjects, t1, enrollmentNo, subjectCode, id2);
      && t2 == t1
      && (r1.Enrolled? ==> r2 == AlreadyEnrolled(r1.userId, r1.subjectId))
      && (r1.AlreadyEnrolled? ==> r2 == r1)
  {
    var (r1, t1) := EnrollEffect(users, subjects, enrollments, enrollmentNo, subjectCode, id1);
    if r1.Enrolled? {
      var uid, sid := r1.userId, r1.subjectId;
      assert t1[|enrollments|].userId == uid && t1[|enrollments|].subjectId == sid;
    }
  }

  /** Enrolment keeps one row per (user, subject). */
  lemma EnrollKeepsPairsUnique(users: seq<User>, subjects: seq<Subject>, enrollments: seq<CourseEnrollment>,
                               enrollmentNo: string, subjectCode: string, newId: Id)
    requires UniqueBy(enrollments, EnrollKey)
    ensures UniqueBy(EnrollEffect(users, subjects, enrollments, enrollmentNo, subjectCode, newId).1, EnrollKey)
  {
    var (r, t) := EnrollEffect(users, subjects, enrollments, enrollmentNo, subjectCode, newId);
    EnrollOutcomes(users, subjects, enrollments, enrollmentNo, subjectCode, newId);
    if r.Enrolled? {
      AppendFreshKey(enrollments, CourseEnrollment(newId, r.userId, r.subjectId), EnrollKey);
    }
  }
}
