/** The integer-keyed tables of the backend/models package, used by the crud
    helpers and by the recognition and students routers.  Dates and times
    are integers. */
module Schema {
  import opened Common

  type Vector = seq<real>

  datatype Student = Student(
    id: nat,
    name: string,
    email: Option<string>,
    enrollmentNo: Option<string>,
    photoCount: int)

  datatype Faculty = Faculty(id: nat, name: string, email: Option<string>)

  datatype Subject = Subject(id: nat, code: string, name: string)

  datatype AttendanceSession = AttendanceSession(
    id: nat,
    subjectId: nat,
    facultyId: nat,
    date: int,
    startTime: int,
    endTime: int,
    isActive: bool)

  datatype AttendanceRecord = AttendanceRecord(
    id: nat,
    studentId: nat,
    sessionId: nat,
    status: string,
    markedAt: int)

  datatype FaceEmbedding = FaceEmbedding(id: nat, studentId: nat, embedding: Vector)

  /** The database behind the integer-keyed helpers: one sequence per table,
      in query order, and the next primary key. */
  class Database {
    var students: seq<Student>
    var faculties: seq<Faculty>
    var subjects: seq<Subject>
    var sessions: seq<AttendanceSession>
    var records: seq<AttendanceRecord>
    var embeddings: seq<FaceEmbedding>
    var nextId: nat

    constructor ()
      ensures students == [] && faculties == [] && subjects == []
      ensures sessions == [] && records == [] && embeddings == []
      ensures nextId == 0
    {
      students := [];
      faculties := [];
      subjects := [];
      sessions := [];
      records := [];
      embeddings := [];
      nextId := 0;
    }
  }
}
