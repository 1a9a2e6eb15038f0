/** The older session helpers of backend/crud/sessions.py over the
    integer-keyed tables. */
module SessionsCrud {
  import opened Common
  import opened Schema

  /** The request body of the older session-creation path. */
  datatype SessionCreate = SessionCreate(
    subjectCode: string,
    facultyId: nat,
    date: int,
    startTime: int,
    endTime: int,
    isActive: bool)

  datatype CreateResult = SubjectNotFound | FacultyNotFound | Created(session: AttendanceSession)

  /** `get_subject_by_code`: the first subject with that code. */
  function SubjectByCode(subjects: seq<Subject>, code: string): (r: Option<Subject>)
    ensures r.None? <==> forall i :: 0 <= i < |subjects| ==> subjects[i].code != code
    ensures r.Some? ==> r.value in subjects && r.value.code == code
  {
    Find(subjects, (s: Subject) => s.code == code)
  }

  /** What `create_session` does to the session table. */
  function CreateEffect(subjects: seq<Subject>, faculties: seq<Faculty>, sessions: seq<AttendanceSession>,
                        data: SessionCreate, newId: nat): (CreateResult, seq<AttendanceSession>)
  {
    match SubjectByCode(subjects, data.subjectCode)
    case None => (SubjectNotFound, sessions)
    case Some(subject) =>
      match Find(faculties, (f: Faculty) => f.id == data.facultyId)
      case None => (FacultyNotFound, sessions)
      case Some(faculty) =>
        var s := AttendanceSession(newId, subject.id, faculty.id, data.date, data.startTime, data.endTime, data.isActive);
        (Created(s), sessions + [s])
  }

  method CreateSession(db: Database, data: SessionCreate) returns (r: CreateResult)
    modifies db`sessions, db`nextId
    ensures (r, db.sessions) == CreateEffect(db.subjects, db.faculties, old(db.sessions), data, old(db.nextId))
    ensures db.nextId == old(db.nextId) + (if r.Created? then 1 else 0)
  {
    var subject := SubjectByCode(db.subjects, data.subjectCode);
    if subject.None? {
      return SubjectNotFound;
    }
    var faculty := Find(db.faculties, (f: Faculty) => f.id == data.facultyId);
    if faculty.None? {
      return FacultyNotFound;
    }
    var s := AttendanceSession(db.nextId, subject.value.id, faculty.value.id, data.date, data.startTime,
                               data.endTime, data.isActive);
    db.sessions := db.sessions + [s];
    db.nextId := db.nextId + 1;
    r := Created(s);
  }

  /** The subject is checked before the faculty; a failure creates nothing;
      a created session copies date, times and flag from the request and
      links the subject with that code and the requested faculty. */
  lemma CreateOutcomes(subjects: seq<Subject>, faculties: seq<Faculty>, sessions: seq<AttendanceSession>,
                       data: SessionCreate, newId: nat)
    ensures var (r, t) := CreateEffect(subjects, faculties, sessions, data, newId);
      && (r.SubjectNotFound? <==> forall i :: 0 <= i < |subjects| ==> subjects[i].code != data.subjectCode)
      && (r.FacultyNotFound? <==>
            (exists i :: 0 <= i < |subjects| && subjects[i].code == data.subjectCode)
            && forall j :: 0 <= j < |faculties| ==> faculties[j].id != data.facultyId)
      && (!r.Created? ==> t == sessions)
      && (r.Created? ==>
            && t == sessions + [r.session]
            && r.session.id == newId && r.session.facultyId == data.facultyId
            && r.session.date == data.date && r.session.startTime == data.startTime
            && r.session.endTime == data.endTime && r.session.isActive == data.isActive
            && exists i :: 0 <= i < |subjects| && subjects[i].code == data.subjectCode
                           && subjects[i].id == r.session.subjectId)
  {
    var (r, t) := CreateEffect(subjects, faculties, sessions, data, newId);
    if r.Created? {
      var subject := SubjectByCode(subjects, data.subjectCode).value;
      assert subject in subjects;
    }
  }

  /** `get_active_sessions`: the sessions whose flag is set, with no look at
      the clock. */
  function GetActiveSessions(sessions: seq<AttendanceSession>): (r: seq<AttendanceSession>)
    ensures forall s :: s in r <==> s in sessions && s.isActive
    ensures |r| <= |sessions|
  {
    Filter(sessions, (s: AttendanceSession) => s.isActive)
  }
}
