/** The UUID-keyed tables of backend/models.py, used by the kiosk, sessions
    and admin routers.  UUIDs are modelled as naturals handed out by a
    counter; timestamps are integers on one clock. */
module Models {
  import opened Common

  type Id = nat

  /** A face embedding vector, as stored in the JSON column. */
  type Vector = seq<real>

  datatype Role = Student | Faculty | Admin

  datatype User = User(
    id: Id,
    email: string,
    enrollmentNo: Option<string>,
    passwordHash: string,
    fullName: Option<string>,
    role: Role,
    semester: Option<int>)

  datatype Subject = Subject(id: Id, name: string, code: string)

  datatype CourseEnrollment = CourseEnrollment(id: Id, userId: Id, subjectId: Id)

  datatype FaceEmbedding = FaceEmbedding(id: Id, userId: Id, embedding: Vector, imagePath: Option<string>)

  datatype ClassSession = ClassSession(
    id: Id,
    subjectId: Id,
    facultyId: Option<Id>,
    startTime: int,
    endTime: Option<int>,
    isActive: bool)

  datatype AttendanceRecord = AttendanceRecord(
    id: Id,
    sessionId: Id,
    studentId: Id,
    timestamp: int,
    status: string,
    confidence: Option<real>,
    imagePath: Option<string>)

  /** The default status of the UUID-keyed ledger. */
  const PRESENT: string := "PRESENT"

  /** The database behind the UUID-keyed routers: one sequence per table, in
      insertion (query) order, and the source of fresh ids. */
  class Store {
    var users: seq<User>
    var subjects: seq<Subject>
    var enrollments: seq<CourseEnrollment>
    var embeddings: seq<FaceEmbedding>
    var sessions: seq<ClassSession>
    var records: seq<AttendanceRecord>
    var nextId: nat

    constructor ()
      ensures users == [] && subjects == [] && enrollments == []
      ensures embeddings == [] && sessions == [] && records == []
      ensures nextId == 0
    {
      users := [];
      subjects := [];
      enrollments := [];
      embeddings := [];
      sessions := [];
      records := [];
      nextId := 0;
    }
  }
}
