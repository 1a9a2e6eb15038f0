/** pages/FacultyDashboard.tsx: the faculty's session list and launcher,
    the manual-attendance roster (enrolled students merged with the
    session's records) and its optimistic toggle, the subject picker and
    the per-session figures.  The page's `await`s are taken in order; the
    server's answers are parameters. */
module FacultyDashboard {
  import opened Common
  import opened ServicesApi

  /** One line of the manual-attendance roster. */
  datatype RosterEntry = RosterEntry(student: Student, isPresent: bool)

  /** The body of `updateManualAttendance`. */
  datatype ManualUpdate = ManualUpdate(enrollmentNo: string, subject: string, date: string, status: string)

  /** One bar of the attendance chart. */
  datatype ChartPoint = ChartPoint(name: string, present: nat, total: nat)

  // ------------------------------------------------ roster merge

  /** `records.some(r => r.enrollmentNo === e && r.status === 'Present')`. */
  function AnyPresent(records: seq<AttendanceRecord>, enrollmentNo: string): (b: bool)
    ensures b <==> exists j :: 0 <= j < |records| && records[j].enrollmentNo == enrollmentNo
                                                    && records[j].status == "Present"
  {
    if records == [] then false
    else
      (records[0].enrollmentNo == enrollmentNo && records[0].status == "Present")
      || AnyPresent(records[1..], enrollmentNo)
  }

  /** The roster `openAttendanceModal` builds. */
  function Merge(enrolled: seq<Student>, records: seq<AttendanceRecord>): seq<RosterEntry>
  {
    Map(enrolled, (s: Student) => RosterEntry(s, AnyPresent(records, s.enrollmentNo)))
  }

  /** One entry per enrolled student, in order; a student is present iff some
      record with their enrolment number says "Present". */
  lemma MergeEntries(enrolled: seq<Student>, records: seq<AttendanceRecord>)
    ensures |Merge(enrolled, records)| == |enrolled|
    ensures forall i :: 0 <= i < |enrolled| ==>
      Merge(enrolled, records)[i].student == enrolled[i]
      && (Merge(enrolled, records)[i].isPresent <==>
            exists j :: 0 <= j < |records| && records[j].enrollmentNo == enrolled[i].enrollmentNo
                                           && records[j].status == "Present")
  {
  }

  // ------------------------------------------------ optimistic toggle

  /** The roster after the optimistic update: entries of that student get the
      new value. */
  function Toggled(rows: seq<RosterEntry>, studentId: string, value: bool): seq<RosterEntry>
  {
    Map(rows, (item: RosterEntry) => if item.student.id == studentId then item.(isPresent := value) else item)
  }

  /** Only the entries of that student change, and only in `isPresent`. */
  lemma ToggledEntries(rows: seq<RosterEntry>, studentId: string, value: bool)
    ensures |Toggled(rows, studentId, value)| == |rows|
    ensures forall i :: 0 <= i < |rows| && rows[i].student.id != studentId ==>
      Toggled(rows, studentId, value)[i] == rows[i]
    ensures forall i :: 0 <= i < |rows| && rows[i].student.id == studentId ==>
      Toggled(rows, studentId, value)[i] == rows[i].(isPresent := value)
  {
  }

  /** Flipping a student away from the value shown and back restores the
      roster. */
  lemma {:induction false} ToggledBack(rows: seq<RosterEntry>, studentId: string, current: bool)
    requires forall i :: 0 <= i < |rows| && rows[i].student.id == studentId ==> rows[i].isPresent == current
    ensures Toggled(Toggled(rows, studentId, !current), studentId, current) == rows
  {
    var once := Toggled(rows, studentId, !current);
    var twice := Toggled(once, studentId, current);
    assert |twice| == |rows|;
    forall i | 0 <= i < |rows|
      ensures twice[i] == rows[i]
    {
      assert once[i].student == rows[i].student;
    }
  }

  /** The status sent to the server for the new value. */
  function StatusText(present: bool): (t: string)
    ensures t == "Present" || t == "Absent"
    ensures t == "Present" <==> present
  {
    if present then "Present" else "Absent"
  }

  // ------------------------------------------------ subjects and figures

  /** `SUBJECTS.filter(s => user?.assignedSubjects?.includes(s.code))`. */
  function MySubjects(assignedCodes: Option<seq<string>>): seq<Subject>
  {
    Filter(SUBJECTS, (s: Subject) => IsAssigned(assignedCodes, s))
  }

  predicate IsAssigned(assignedCodes: Option<seq<string>>, s: Subject)
  {
    assignedCodes.Some? && s.code in assignedCodes.value
  }

  /** Without assigned subjects the picker is empty; otherwise it offers
      exactly the catalogue entries whose code is assigned. */
  lemma MySubjectsMembers(assignedCodes: Option<seq<string>>)
    ensures assignedCodes.None? ==> MySubjects(assignedCodes) == []
    ensures forall s :: s in MySubjects(assignedCodes) <==>
      s in SUBJECTS && assignedCodes.Some? && s.code in assignedCodes.value
  {
    if assignedCodes.None? {
      FilterNone(SUBJECTS, (s: Subject) => IsAssigned(assignedCodes, s));
    }
  }

  /** The percentage shown beside a session. */
  function SessionPercent(s: Session): (r: nat)
    ensures s.totalStudents == 0 ==> r == 0
    ensures s.totalStudents > 0 ==> r == RoundPercent(s.totalPresent, s.totalStudents)
    ensures s.totalPresent <= s.totalStudents ==> r <= 100
  {
    Percent(s.totalPresent, s.totalStudents)
  }

  /** `chartData`. */
  function ChartData(sessions: seq<Session>): seq<ChartPoint>
  {
    Map(sessions, (s: Session) => ChartPoint(s.subjectCode, s.totalPresent, s.totalStudents))
  }

  /** One bar per session, in order, with its code and its two counts. */
  lemma ChartDataEntries(sessions: seq<Session>)
    ensures |ChartData(sessions)| == |sessions|
    ensures forall i :: 0 <= i < |sessions| ==>
      ChartData(sessions)[i].name == sessions[i].subjectCode
      && ChartData(sessions)[i].present == sessions[i].totalPresent
      && ChartData(sessions)[i].total == sessions[i].totalStudents
  {
  }

  // ------------------------------------------------ the page

  /** The page's state over the mock store it talks to. */
  class FacultyScreen {
    const store: MockStore
    var sessions: seq<Session>
    var selectedSubjectCode: string
    var showAttendanceModal: bool
    var selectedSession: Option<Session>
    var sessionStudents: seq<RosterEntry>

    constructor (store0: MockStore)
      ensures store == store0 && sessions == [] && selectedSubjectCode == ""
      ensures !showAttendanceModal && selectedSession.None? && sessionStudents == []
    {
      store := store0;
      sessions := [];
      selectedSubjectCode := "";
      showAttendanceModal := false;
      selectedSession := None;
      sessionStudents := [];
    }

    /** The launch button is disabled until a subject is picked. */
    predicate LaunchDisabled()
      reads this
    {
      selectedSubjectCode == ""
    }

    /** `handleCreateSession`, with the new session's id and the clock as
        parameters: nothing happens without a picked subject; otherwise the
        session is created, the picker cleared and the list refetched. */
    method HandleCreateSession(id: string, date: string, startTime: string)
      modifies this, store`sessions
      ensures old(LaunchDisabled()) ==> unchanged(this) && unchanged(store)
      ensures !old(LaunchDisabled()) ==>
        store.sessions == [NewSession(store.subjects, store.students, old(selectedSubjectCode), id, date, startTime)]
                          + old(store.sessions)
        && sessions == store.sessions && selectedSubjectCode == ""
        && showAttendanceModal == old(showAttendanceModal) && selectedSession == old(selectedSession)
        && sessionStudents == old(sessionStudents)
    {
      if selectedSubjectCode == "" {
        return;
      }
      var _ := store.CreateSession(selectedSubjectCode, id, date, startTime);
      selectedSubjectCode := "";
      sessions := store.sessions;
    }

    /** `openAttendanceModal`, with the session's records as the server
        returns them. */
    method OpenAttendanceModal(session: Session, records: seq<AttendanceRecord>)
      modifies this
      ensures selectedSession == Some(session) && showAttendanceModal
      ensures sessionStudents == Merge(StudentsBySubject(store.students, session.subjectCode), records)
      ensures sessions == old(sessions) && selectedSubjectCode == old(selectedSubjectCode)
    {
      selectedSession := Some(session);
      showAttendanceModal := true;
      var enrolled := StudentsBySubject(store.students, session.subjectCode);
      var merged := Map(enrolled, (s: Student) => RosterEntry(s, AnyPresent(records, s.enrollmentNo)));
      sessionStudents := merged;
    }

    /** `toggleAttendance`: without a selected session nothing happens and no
        call is made; otherwise the roster is updated, the new status sent
        and the session list refetched. */
    method ToggleAttendance(student: Student, currentStatus: bool) returns (call: Option<ManualUpdate>)
      modifies this
      ensures old(selectedSession).None? ==> call.None? && unchanged(this)
      ensures old(selectedSession).Some? ==>
        sessionStudents == Toggled(old(sessionStudents), student.id, !currentStatus)
        && call == Some(ManualUpdate(student.enrollmentNo, old(selectedSession).value.subject,
                                     old(selectedSession).value.date, StatusText(!currentStatus)))
        && sessions == store.sessions
        && selectedSession == old(selectedSession) && showAttendanceModal == old(showAttendanceModal)
        && selectedSubjectCode == old(selectedSubjectCode)
    {
      if selectedSession.None? {
        return None;
      }
      var newStatus := !currentStatus;
      sessionStudents := Map(sessionStudents,
        (item: RosterEntry) => if item.student.id == student.id then item.(isPresent := newStatus) else item);
      call := Some(ManualUpdate(student.enrollmentNo, selectedSession.value.subject,
                                selectedSession.value.date, if newStatus then "Present" else "Absent"));
      sessions := store.sessions;
    }
  }
}
