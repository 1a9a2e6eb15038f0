/** services/api.ts: the client's in-memory mock backend (the arrays it
    mutates and the operations on them), the mock login, and the error
    mapping of the live `markAttendance` call.  Network delays are not
    modelled; random ids and the clock are parameters. */
module ServicesApi {
  import opened Common
  import RecognitionRouter

  datatype UserRole = ADMIN | FACULTY | STUDENT

  datatype Subject = Subject(code: string, name: string)

  datatype ApiUser = ApiUser(id: string, name: string, email: string, role: UserRole,
                             assignedSubjects: Option<seq<string>>)

  datatype Student = Student(
    id: string, enrollmentNo: string, name: string, email: string, semester: int,
    branch: string, status: string, photoCount: int, enrolledSubjects: seq<string>)

  /** The fields of a student the add form supplies. */
  datatype NewStudent = NewStudent(
    enrollmentNo: string, name: string, email: string, semester: int,
    branch: string, enrolledSubjects: seq<string>)

  datatype Session = Session(
    id: string, subject: string, subjectCode: string, facultyName: string, date: string,
    startTime: string, endTime: string, isActive: bool, totalPresent: nat, totalStudents: nat)

  /** One line of a student's attendance history. */
  datatype AttendanceRecord = AttendanceRecord(
    id: string, studentName: string, enrollmentNo: string, subject: string,
    date: string, time: string, status: string)

  const MOCK_HISTORY: seq<AttendanceRecord> := [
    AttendanceRecord("1", "John Doe", "CS2023001", "Data Structures", "2023-10-25", "10:05 AM", "Present"),
    AttendanceRecord("2", "John Doe", "CS2023001", "Operating Systems", "2023-10-24", "02:00 PM", "Absent")]

  const SUBJECTS: seq<Subject> := [
    Subject("CS301", "Data Structures"),
    Subject("CS302", "Operating Systems"),
    Subject("CS401", "Computer Networks"),
    Subject("CS501", "Artificial Intelligence"),
    Subject("EE201", "Digital Circuits")]

  const ADMIN_USER: ApiUser := ApiUser("1", "Admin User", "admin@test.com", ADMIN, None)
  const FACULTY_USER: ApiUser := ApiUser("2", "Dr. Faculty", "faculty@test.com", FACULTY, Some(["CS301", "CS302"]))
  const STUDENT_USER: ApiUser := ApiUser("3", "John Student", "student@test.com", STUDENT, None)

  /** The mock `login`: the lower-cased name is searched for "admin", then
      "faculty"; everything else, "student" or not, is the demo student. */
  function Login(username: string): (u: ApiUser)
    ensures u.role == ADMIN <==> Contains(Lower(username), "admin")
    ensures u.role == FACULTY <==> !Contains(Lower(username), "admin") && Contains(Lower(username), "faculty")
    ensures u.role == STUDENT ==> u == STUDENT_USER
  {
    var lowerUser := Lower(username);
    if Contains(lowerUser, "admin") then ADMIN_USER
    else if Contains(lowerUser, "faculty") then FACULTY_USER
    else STUDENT_USER
  }

  /** The mock login ignores letter case. */
  lemma LoginIgnoresCase(username: string)
    ensures Login(Lower(username)) == Login(username)
  {
    LowerIdempotent(username);
  }

  /** `getStudentsBySubject`: the students enrolled in the code, in order. */
  function StudentsBySubject(students: seq<Student>, subjectCode: string): (r: seq<Student>)
    ensures |r| <= |students|
    ensures forall s :: s in r <==> s in students && subjectCode in s.enrolledSubjects
  {
    Filter(students, (s: Student) => subjectCode in s.enrolledSubjects)
  }

  /** The sum of the students' photo counts. */
  function TotalPhotos(students: seq<Student>): int
  {
    if students == [] then 0 else TotalPhotos(students[..|students| - 1]) + students[|students| - 1].photoCount
  }

  lemma {:induction false} TotalPhotosUpdate(students: seq<Student>, k: nat, s: Student)
    requires k < |students|
    ensures TotalPhotos(students[k := s]) == TotalPhotos(students) - students[k].photoCount + s.photoCount
    decreases |students|
  {
    var n := |students| - 1;
    var t := students[k := s];
    assert t[..n] == if k == n then students[..n] else students[..n][k := s];
    if k < n {
      TotalPhotosUpdate(students[..n], k, s);
    }
  }

  /** The students after `uploadStudentImage(studentId)`: the first student
      with that id has one more photo; an unknown id changes nothing. */
  function Uploaded(students: seq<Student>, studentId: string): seq<Student>
  {
    match FirstIndex(students, (s: Student) => s.id == studentId)
    case None => students
    case Some(k) => students[k := students[k].(photoCount := students[k].photoCount + 1)]
  }

  /** An upload changes at most one student, only in its photo count, and
      raises the total by exactly one when the id is known. */
  lemma UploadedCounts(students: seq<Student>, studentId: string)
    ensures var t := Uploaded(students, studentId);
      |t| == |students|
      && ((forall i :: 0 <= i < |students| ==> students[i].id != studentId) ==> t == students)
      && ((exists i :: 0 <= i < |students| && students[i].id == studentId) ==> TotalPhotos(t) == TotalPhotos(students) + 1)
      && forall i :: 0 <= i < |t| ==> t[i] == students[i] || t[i] == students[i].(photoCount := students[i].photoCount + 1)
  {
    match FirstIndex(students, (s: Student) => s.id == studentId)
    case None =>
    case Some(k) =>
      TotalPhotosUpdate(students, k, students[k].(photoCount := students[k].photoCount + 1));
  }

  /** The session `createSession` puts at the front of the list. */
  function NewSession(subjects: seq<Subject>, students: seq<Student>, subjectCode: string,
                      id: string, date: string, startTime: string): Session
  {
    var named := Find(subjects, (s: Subject) => s.code == subjectCode);
    Session(id, if named.Some? && named.value.name != "" then named.value.name else "Unknown",
            subjectCode, "Dr. Faculty", date, startTime, "...", true, 0,
            |StudentsBySubject(students, subjectCode)|)
  }

  /** A new session is active with nobody present yet, counts the students
      enrolled in its code, and is named after the first subject with that
      code, or "Unknown" when there is none. */
  lemma NewSessionFields(subjects: seq<Subject>, students: seq<Student>, subjectCode: string,
                         id: string, date: string, startTime: string)
    ensures var s := NewSession(subjects, students, subjectCode, id, date, startTime);
      s.isActive && s.totalPresent == 0 && s.subjectCode == subjectCode
      && s.totalStudents <= |students|
      && ((forall i :: 0 <= i < |subjects| ==> subjects[i].code != subjectCode) ==> s.subject == "Unknown")
      && (s.subject == "Unknown" || exists i :: 0 <= i < |subjects| && subjects[i].code == subjectCode && subjects[i].name == s.subject)
  {
  }

  /** The mock store: the module-level arrays the mock operations mutate. */
  class MockStore {
    var subjects: seq<Subject>
    var students: seq<Student>
    var sessions: seq<Session>

    constructor (students0: seq<Student>, sessions0: seq<Session>)
      ensures subjects == SUBJECTS && students == students0 && sessions == sessions0
    {
      subjects := SUBJECTS;
      students := students0;
      sessions := sessions0;
    }

    /** `createSubject`: appends exactly one subject. */
    method CreateSubject(code: string, name: string) returns (created: Subject)
      modifies this`subjects
      ensures created == Subject(code, name)
      ensures subjects == old(subjects) + [created]
    {
      created := Subject(code, name);
      subjects := subjects + [created];
    }

    /** `addStudent`, with the random id as a parameter. */
    method AddStudent(student: NewStudent, id: string) returns (created: Student)
      modifies this`students
      ensures created.id == id && created.photoCount == 0 && created.status == "Active"
      ensures created.enrollmentNo == student.enrollmentNo && created.name == student.name
      ensures created.email == student.email && created.semester == student.semester
      ensures created.branch == student.branch && created.enrolledSubjects == student.enrolledSubjects
      ensures students == old(students) + [created]
    {
      created := Student(id, student.enrollmentNo, student.name, student.email, student.semester,
                         student.branch, "Active", 0, student.enrolledSubjects);
      students := students + [created];
    }

    /** `uploadStudentImage`. */
    method UploadStudentImage(studentId: string)
      modifies this`students
      ensures students == Uploaded(old(students), studentId)
    {
      var k := FirstIndex(students, (s: Student) => s.id == studentId);
      if k.Some? {
        var s := students[k.value];
        students := students[k.value := s.(photoCount := s.photoCount + 1)];
      }
    }

    /** `createSession`, with the random id and the clock's date and time
        as parameters. */
    method CreateSession(subjectCode: string, id: string, date: string, startTime: string)
      returns (created: Session)
      modifies this`sessions
      ensures created == NewSession(subjects, students, subjectCode, id, date, startTime)
      ensures sessions == [created] + old(sessions)
    {
      var named := Find(subjects, (s: Subject) => s.code == subjectCode);
      var enrolled := Filter(students, (s: Student) => subjectCode in s.enrolledSubjects);
      created := Session(id, if named.Some? && named.value.name != "" then named.value.name else "Unknown",
                         subjectCode, "Dr. Faculty", date, startTime, "...", true, 0, |enrolled|);
      sessions := [created] + sessions;
    }
  }

  // ------------------------------------------------ live markAttendance

  /** How a POST to the recognition endpoint ends for the client: with the
      response body, or with a thrown transport or HTTP error. */
  datatype Transport = Delivered(body: RecognitionRouter.RecognitionResponse) | Thrown

  const CONNECTION_ERROR: string := "Server Connection Error"

  /** The server's answer as the HTTP client sees it: a 500 throws. */
  function FromServer(o: RecognitionRouter.RecognizeOutcome): (t: Transport)
    ensures t.Thrown? <==> o.InternalError?
  {
    match o
    case Responded(r) => Delivered(r)
    case InternalError => Thrown
  }

  /** The live `markAttendance`: the body when there is one, otherwise a
      failure carrying the connection-error message. */
  function MarkAttendance(t: Transport): (r: RecognitionRouter.RecognitionResponse)
    ensures t.Thrown? ==> !r.success && r.message == Some(CONNECTION_ERROR)
    ensures t.Delivered? ==> r == t.body
  {
    match t
    case Delivered(body) => body
    case Thrown => RecognitionRouter.RecognitionResponse(false, Some(CONNECTION_ERROR), None, None)
  }

  // ------------------------------------------------ attendance history

  /** `getAttendanceHistory`: the mock answers the same two records whatever
      the enrolment number; the live client asks the server for that
      number's history, given here as `server`. */
  function AttendanceHistory(useMock: bool, enrollmentNo: string,
                             server: string -> seq<AttendanceRecord>): (r: seq<AttendanceRecord>)
    ensures useMock ==> r == MOCK_HISTORY
    ensures !useMock ==> r == server(enrollmentNo)
  {
    if useMock then MOCK_HISTORY else server(enrollmentNo)
  }
}
