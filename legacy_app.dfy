/** src/main.jsx, the single-file prototype of the front end: the elapsed
    time display, the mock login, the per-session roster, the class-wise
    summary, the class creation form, the teacher's session card and the
    kiosk's capture state machine.  Dates are day numbers, so the date
    comparison of the summary's sort is integer comparison; clocks and the
    mock recogniser's random replies are parameters. */
module LegacyApp {
  import opened Common

  // ----------------------------------------------------------- formatTime

  /** `n.toString().padStart(2, '0')`. */
  function PadStart2(n: nat): (r: string)
    ensures AllDigits(r) && |r| >= 2 && DecimalValue(r) == n
    ensures n < 100 ==> |r| == 2
  {
    var s := NatToString(n);
    NatToStringValue(n);
    if |s| < 2 then
      LeadingZeroValue(s);
      "0" + s
    else
      s
  }

  datatype Clock = Clock(h: nat, m: nat, s: nat)

  /** Hours, minutes and seconds of an elapsed time in seconds. */
  function SplitSeconds(seconds: nat): (c: Clock)
    ensures c.h * 3600 + c.m * 60 + c.s == seconds
    ensures c.m < 60 && c.s < 60
  {
    Clock(seconds / 3600, (seconds % 3600) / 60, seconds % 60)
  }

  /** The split is the only one with minutes and seconds below 60. */
  lemma SplitSecondsUnique(c: Clock, seconds: nat)
    requires c.m < 60 && c.s < 60 && c.h * 3600 + c.m * 60 + c.s == seconds
    ensures SplitSeconds(seconds) == c
  {
    assert c.h * 3600 <= seconds < c.h * 3600 + 3600;
    assert seconds / 3600 == c.h;
    assert seconds % 3600 == c.m * 60 + c.s;
  }

  /** `formatTime`: `hh:mm:ss`, each field padded to two digits. */
  function FormatTime(seconds: nat): string
  {
    var c := SplitSeconds(seconds);
    PadStart2(c.h) + ":" + PadStart2(c.m) + ":" + PadStart2(c.s)
  }

  /** Below 100 hours the display has exactly eight characters, and it
      never has fewer. */
  lemma FormatTimeLength(seconds: nat)
    ensures |FormatTime(seconds)| >= 8
    ensures seconds < 360000 ==> |FormatTime(seconds)| == 8
  {
  }

  /** Three runs of digits joined by colons split one way only. */
  lemma ClockTextSplit(h1: string, m1: string, s1: string, h2: string, m2: string, s2: string)
    requires AllDigits(h1) && AllDigits(m1) && AllDigits(s1) && AllDigits(h2) && AllDigits(m2) && AllDigits(s2)
    requires h1 + ":" + m1 + ":" + s1 == h2 + ":" + m2 + ":" + s2
    ensures h1 == h2 && m1 == m2 && s1 == s2
  {
    var t1, t2 := ":" + m1 + ":" + s1, ":" + m2 + ":" + s2;
    assert h1 + ":" + m1 + ":" + s1 == h1 + t1;
    assert h2 + ":" + m2 + ":" + s2 == h2 + t2;
    DigitsSplit(h1, t1, h2, t2);
    var u1, u2 := ":" + s1, ":" + s2;
    assert m1 + u1 == t1[1..];
    assert m2 + u2 == t2[1..];
    DigitsSplit(m1, u1, m2, u2);
    assert s1 == u1[1..] && s2 == u2[1..];
  }

  /** Distinct elapsed times are displayed differently: the display can be
      read back, field by field. */
  lemma FormatTimeInjective(x: nat, y: nat)
    requires FormatTime(x) == FormatTime(y)
    ensures x == y
  {
    var cx, cy := SplitSeconds(x), SplitSeconds(y);
    ClockTextSplit(PadStart2(cx.h), PadStart2(cx.m), PadStart2(cx.s), PadStart2(cy.h), PadStart2(cy.m), PadStart2(cy.s));
    assert cx == cy;
  }

  // ------------------------------------------------------------- login

  datatype LegacyUser = LegacyUser(id: string, name: string, role: string, enrollmentNo: Option<string>)

  datatype LoginReply = LoggedIn(user: LegacyUser) | Refused(message: string)

  const TEACHER: LegacyUser := LegacyUser("T101", "Dr. Smith", "faculty", None)
  const STUDENT: LegacyUser := LegacyUser("S1001", "Alice Johnson", "student", Some("S1001"))
  const KIOSK: LegacyUser := LegacyUser("K001", "Main Gate Kiosk", "kiosk", None)

  /** `MOCK_API.login`. */
  function MockLogin(username: string, password: string): (r: LoginReply)
    ensures r.LoggedIn? <==> (username == "teacher" && password == "pass")
                             || (username == "student" && password == "pass") || username == "kiosk"
    ensures r.Refused? ==> r.message == "Invalid credentials."
    ensures r.LoggedIn? && username == "teacher" ==> r.user == TEACHER
    ensures r.LoggedIn? && username == "student" ==> r.user == STUDENT
    ensures username == "kiosk" ==> r == LoggedIn(KIOSK)
  {
    if username == "teacher" && password == "pass" then LoggedIn(TEACHER)
    else if username == "student" && password == "pass" then LoggedIn(STUDENT)
    else if username == "kiosk" then LoggedIn(KIOSK)
    else Refused("Invalid credentials.")
  }

  // ----------------------------------------------- session detail modal

  datatype PresentStudent = PresentStudent(id: int, name: string, enrollmentNo: string, time: string, via: string)

  datatype RosterStudent = RosterStudent(name: string, enrollmentNo: string)

  datatype RosterRow = RosterRow(name: string, enrollmentNo: string, present: bool, time: string)

  /** The fixed roster the modal checks against. */
  const ALL_STUDENTS: seq<RosterStudent> := [
    RosterStudent("Alice Johnson", "S1001"),
    RosterStudent("Bob Williams", "S1002"),
    RosterStudent("Charlie Davis", "S1003"),
    RosterStudent("Diana Prince", "S1004")]

  function RowFor(presentStudents: seq<PresentStudent>, st: RosterStudent): RosterRow
  {
    var hit := Find(presentStudents, (p: PresentStudent) => p.enrollmentNo == st.enrollmentNo);
    RosterRow(st.name, st.enrollmentNo, hit.Some?, if hit.Some? && hit.value.time != "" then hit.value.time else "N/A")
  }

  /** The modal's rows: the roster in order, each marked with its presence. */
  function SessionDetail(roster: seq<RosterStudent>, presentStudents: seq<PresentStudent>): seq<RosterRow>
  {
    Map(roster, (st: RosterStudent) => RowFor(presentStudents, st))
  }

  /** One row per roster student, in order; present exactly when some
      present entry has the same enrollment number; the time is the first
      such entry's, or "N/A" (always for an absent student). */
  lemma SessionDetailRows(roster: seq<RosterStudent>, presentStudents: seq<PresentStudent>)
    ensures var r := SessionDetail(roster, presentStudents);
      |r| == |roster|
      && forall i :: 0 <= i < |r| ==>
           r[i].name == roster[i].name && r[i].enrollmentNo == roster[i].enrollmentNo
           && (r[i].present <==> exists j :: 0 <= j < |presentStudents| && presentStudents[j].enrollmentNo == roster[i].enrollmentNo)
           && (!r[i].present ==> r[i].time == "N/A")
           && (r[i].present ==>
                 exists j :: 0 <= j < |presentStudents| && presentStudents[j].enrollmentNo == roster[i].enrollmentNo
                   && (forall k :: 0 <= k < j ==> presentStudents[k].enrollmentNo != roster[i].enrollmentNo)
                   && r[i].time == (if presentStudents[j].time != "" then presentStudents[j].time else "N/A"))
  {
    var r := SessionDetail(roster, presentStudents);
    forall i | 0 <= i < |r|
      ensures r[i].present ==>
                exists j :: 0 <= j < |presentStudents| && presentStudents[j].enrollmentNo == roster[i].enrollmentNo
                  && (forall k :: 0 <= k < j ==> presentStudents[k].enrollmentNo != roster[i].enrollmentNo)
                  && r[i].time == (if presentStudents[j].time != "" then presentStudents[j].time else "N/A")
    {
      var e := roster[i].enrollmentNo;
      var hit := Find(presentStudents, (p: PresentStudent) => p.enrollmentNo == e);
      if hit.Some? {
        var j :| 0 <= j < |presentStudents| && presentStudents[j] == hit.value && presentStudents[j].enrollmentNo == e
                 && forall k :: 0 <= k < j ==> presentStudents[k].enrollmentNo != e;
        assert r[i].time == (if presentStudents[j].time != "" then presentStudents[j].time else "N/A");
      }
    }
  }

  // ------------------------------------------------------- class record

  datatype AttendanceData = AttendanceData(
    sessionId: string, classId: string, sessionDate: int, totalStudents: int, presentCount: int,
    presentStudents: seq<PresentStudent>)

  /** What the summary keeps of a session. */
  datatype Summary = Summary(present: int, total: int, sessionId: string)

  function SummaryFrom(s: AttendanceData): Summary
  {
    Summary(s.presentCount, s.totalStudents, s.sessionId)
  }

  /** The reduce over the selected class's sessions: one entry per date,
      written in list order. */
  function SummaryOf(sessions: seq<AttendanceData>): map<int, Summary>
  {
    if sessions == [] then map[]
    else
      var last := sessions[|sessions| - 1];
      SummaryOf(sessions[..|sessions| - 1])[last.sessionDate := SummaryFrom(last)]
  }

  /** The keys are exactly the session dates, and each date holds the
      summary of the last session on that date. */
  lemma {:induction false} SummaryLastWins(sessions: seq<AttendanceData>)
    ensures forall d :: d in SummaryOf(sessions) <==> exists i :: 0 <= i < |sessions| && sessions[i].sessionDate == d
    ensures forall d :: d in SummaryOf(sessions) ==>
      exists i :: 0 <= i < |sessions| && sessions[i].sessionDate == d && SummaryOf(sessions)[d] == SummaryFrom(sessions[i])
        && forall j :: i < j < |sessions| ==> sessions[j].sessionDate != d
  {
    if sessions != [] {
      var n := |sessions| - 1;
      var init := sessions[..n];
      SummaryLastWins(init);
      var m := SummaryOf(sessions);
      assert m == SummaryOf(init)[sessions[n].sessionDate := SummaryFrom(sessions[n])];
      forall d | d in m
        ensures exists i :: 0 <= i < |sessions| && sessions[i].sessionDate == d && m[d] == SummaryFrom(sessions[i])
                  && forall j :: i < j < |sessions| ==> sessions[j].sessionDate != d
      {
        if d == sessions[n].sessionDate {
          assert m[d] == SummaryFrom(sessions[n]);
        } else {
          assert d in SummaryOf(init);
          var i :| 0 <= i < |init| && init[i].sessionDate == d && SummaryOf(init)[d] == SummaryFrom(init[i])
                   && forall j :: i < j < |init| ==> init[j].sessionDate != d;
          assert sessions[i] == init[i];
        }
      }
      forall d | exists i :: 0 <= i < |sessions| && sessions[i].sessionDate == d
        ensures d in m
      {
        var i :| 0 <= i < |sessions| && sessions[i].sessionDate == d;
        if i < n {
          assert init[i] == sessions[i];
          assert exists k :: 0 <= k < |init| && init[k].sessionDate == d;
        }
      }
    }
  }

  /** The selected class's sessions. */
  function SessionsOf(data: seq<AttendanceData>, classId: string): seq<AttendanceData>
  {
    Filter(data, (s: AttendanceData) => s.classId == classId)
  }

  /** `summaryByDate`, built the way the reduce builds its accumulator. */
  method SummaryByDate(data: seq<AttendanceData>, classId: string) returns (acc: map<int, Summary>)
    ensures acc == SummaryOf(SessionsOf(data, classId))
  {
    var filtered := Filter(data, (s: AttendanceData) => s.classId == classId);
    acc := map[];
    var i := 0;
    while i < |filtered|
      invariant 0 <= i <= |filtered|
      invariant acc == SummaryOf(filtered[..i])
    {
      assert filtered[..i + 1][..i] == filtered[..i];
      acc := acc[filtered[i].sessionDate := SummaryFrom(filtered[i])];
      i := i + 1;
    }
    assert filtered[..|filtered|] == filtered;
  }

  predicate StrictlyDescending(r: seq<int>)
  {
    forall i, j :: 0 <= i < j < |r| ==> r[i] > r[j]
  }

  /** Inserts a date into a newest-first list, keeping one copy. */
  function InsertDescending(x: int, r: seq<int>): (t: seq<int>)
    requires StrictlyDescending(r)
    ensures StrictlyDescending(t)
    ensures forall d :: d in t <==> d == x || d in r
  {
    if r == [] then [x]
    else if x > r[0] then
      ConsDescending(x, r);
      [x] + r
    else if x == r[0] then r
    else
      var tail := r[1..];
      assert r == [r[0]] + tail;
      var rest := InsertDescending(x, tail);
      ConsDescending(r[0], rest);
      [r[0]] + rest
  }

  /** A date newer than every date of a newest-first list can head it. */
  lemma ConsDescending(h: int, r: seq<int>)
    requires StrictlyDescending(r)
    requires forall d :: d in r ==> d < h
    ensures StrictlyDescending([h] + r)
  {
    var t := [h] + r;
    forall i, j | 0 <= i < j < |t|
      ensures t[i] > t[j]
    {
      assert t[j] == r[j - 1];
      if i > 0 {
        assert t[i] == r[i - 1];
      } else {
        assert r[j - 1] in r;
      }
    }
  }

  /** The distinct dates, newest first. */
  function NewestFirst(dates: seq<int>): (r: seq<int>)
    ensures StrictlyDescending(r)
    ensures forall d :: d in r <==> d in dates
  {
    if dates == [] then []
    else InsertDescending(dates[|dates| - 1], NewestFirst(dates[..|dates| - 1]))
  }

  /** A newest-first arrangement of a set of dates is unique, so any sort of
      the summary's keys by descending date gives `NewestFirst`. */
  lemma {:induction false} DescendingUnique(a: seq<int>, b: seq<int>)
    requires StrictlyDescending(a) && StrictlyDescending(b)
    requires forall d :: d in a <==> d in b
    ensures a == b
    decreases |a|
  {
    if a != [] {
      assert a[0] in a;
    }
    if b != [] {
      assert b[0] in b;
    }
    if a != [] && b != [] {
      assert a[0] in b && b[0] in a;
      assert a[0] == b[0];
      forall d
        ensures d in a[1..] <==> d in b[1..]
      {
        if d in a[1..] {
          assert d in b && d < a[0];
        }
        if d in b[1..] {
          assert d in a && d < b[0];
        }
      }
      DescendingUnique(a[1..], b[1..]);
    }
  }

  /** A row of the records table. */
  datatype RecordRow = RecordRow(date: int, present: int, absent: int, total: int, sessionId: string)

  function DatesOf(sessions: seq<AttendanceData>): seq<int>
  {
    Map(sessions, (s: AttendanceData) => s.sessionDate)
  }

  /** The summary's keys are exactly the dates of its sessions. */
  lemma {:induction false} SummaryKeys(sessions: seq<AttendanceData>)
    ensures forall d :: d in SummaryOf(sessions) <==> d in DatesOf(sessions)
  {
    if sessions != [] {
      var n := |sessions| - 1;
      SummaryKeys(sessions[..n]);
      assert DatesOf(sessions) == DatesOf(sessions[..n]) + [sessions[n].sessionDate];
    }
  }

  function RowOf(date: int, s: Summary): RecordRow
  {
    RecordRow(date, s.present, s.total - s.present, s.total, s.sessionId)
  }

  /** The table of the selected class. */
  function ClassRecordRows(data: seq<AttendanceData>, classId: string): seq<RecordRow>
  {
    var f := SessionsOf(data, classId);
    var summary := SummaryOf(f);
    var order := NewestFirst(DatesOf(f));
    SummaryKeys(f);
    seq(|order|, i requires 0 <= i < |order| => RowOf(order[i], summary[order[i]]))
  }

  /** One row per date of the selected class's sessions, newest first. */
  lemma ClassRecordRowsDates(data: seq<AttendanceData>, classId: string)
    ensures var rows, f := ClassRecordRows(data, classId), SessionsOf(data, classId);
      && (forall i, j :: 0 <= i < j < |rows| ==> rows[i].date > rows[j].date)
      && (forall i :: 0 <= i < |rows| ==> rows[i].date in DatesOf(f))
      && (forall k :: 0 <= k < |f| ==> exists i :: 0 <= i < |rows| && rows[i].date == f[k].sessionDate)
  {
    var rows, f := ClassRecordRows(data, classId), SessionsOf(data, classId);
    var order := NewestFirst(DatesOf(f));
    assert forall i :: 0 <= i < |rows| ==> rows[i].date == order[i];
    forall k | 0 <= k < |f|
      ensures exists i :: 0 <= i < |rows| && rows[i].date == f[k].sessionDate
    {
      assert DatesOf(f)[k] == f[k].sessionDate;
      assert f[k].sessionDate in DatesOf(f);
      assert f[k].sessionDate in order;
      var i :| 0 <= i < |order| && order[i] == f[k].sessionDate;
      assert rows[i].date == f[k].sessionDate;
    }
  }

  /** Each row carries the last session on its date, with absent = total -
      present. */
  lemma ClassRecordRowsValues(data: seq<AttendanceData>, classId: string)
    ensures var rows, f := ClassRecordRows(data, classId), SessionsOf(data, classId);
      forall i :: 0 <= i < |rows| ==>
        rows[i].absent == rows[i].total - rows[i].present
        && exists k :: 0 <= k < |f| && f[k].sessionDate == rows[i].date
             && rows[i].present == f[k].presentCount && rows[i].total == f[k].totalStudents
             && rows[i].sessionId == f[k].sessionId
             && forall j :: k < j < |f| ==> f[j].sessionDate != rows[i].date
  {
    var rows, f := ClassRecordRows(data, classId), SessionsOf(data, classId);
    var order := NewestFirst(DatesOf(f));
    var summary := SummaryOf(f);
    SummaryKeys(f);
    SummaryLastWins(f);
    forall i | 0 <= i < |rows|
      ensures exists k :: 0 <= k < |f| && f[k].sessionDate == rows[i].date
                && rows[i].present == f[k].presentCount && rows[i].total == f[k].totalStudents
                && rows[i].sessionId == f[k].sessionId
                && forall j :: k < j < |f| ==> f[j].sessionDate != rows[i].date
    {
      var d := order[i];
      assert rows[i] == RowOf(d, summary[d]);
      var k :| 0 <= k < |f| && f[k].sessionDate == d && summary[d] == SummaryFrom(f[k])
               && forall j :: k < j < |f| ==> f[j].sessionDate != d;
    }
  }

  // -------------------------------------------------- create class form

  datatype ClassItem = ClassItem(id: string, name: string, code: string, facultyId: string)

  const INITIAL_IDS: seq<string> := ["C001", "C002", "C003"]

  /** The class ids as the prototype hands them out: the three fixtures,
      then `C{n+1}` for the class appended when there were `n`. */
  predicate CatalogIds(classes: seq<ClassItem>)
  {
    |classes| >= |INITIAL_IDS|
    && forall i :: 0 <= i < |classes| ==>
         classes[i].id == if i < |INITIAL_IDS| then INITIAL_IDS[i] else "C" + NatToString(i + 1)
  }

  function NewClass(classes: seq<ClassItem>, name: string, code: string): ClassItem
  {
    ClassItem("C" + NatToString(|classes| + 1), name, code, "T101")
  }

  /** Appending a created class keeps the id scheme. */
  lemma NewClassKeepsIds(classes: seq<ClassItem>, name: string, code: string)
    requires CatalogIds(classes)
    ensures CatalogIds(classes + [NewClass(classes, name, code)])
  {
  }

  /** A generated id is never one of the fixtures' ids. */
  lemma GeneratedIdNotFixture(n: nat)
    requires n >= |INITIAL_IDS|
    ensures "C" + NatToString(n + 1) !in INITIAL_IDS
  {
    NatToStringLeading(n + 1);
    assert ("C" + NatToString(n + 1))[1] == NatToString(n + 1)[0];
  }

  /** Generated ids of different positions differ. */
  lemma GeneratedIdsDistinct(i: nat, j: nat)
    requires i != j
    ensures "C" + NatToString(i + 1) != "C" + NatToString(j + 1)
  {
    NatToStringValue(i + 1);
    NatToStringValue(j + 1);
    assert NatToString(i + 1) == ("C" + NatToString(i + 1))[1..];
    assert NatToString(j + 1) == ("C" + NatToString(j + 1))[1..];
  }

  /** Under that scheme no two classes share an id. */
  lemma CatalogIdsDistinct(classes: seq<ClassItem>)
    requires CatalogIds(classes)
    ensures forall i, j :: 0 <= i < j < |classes| ==> classes[i].id != classes[j].id
  {
    forall i, j | 0 <= i < j < |classes|
      ensures classes[i].id != classes[j].id
    {
      if j >= |INITIAL_IDS| {
        if i >= |INITIAL_IDS| {
          GeneratedIdsDistinct(i, j);
        } else {
          GeneratedIdNotFixture(j);
        }
      }
    }
  }

  /** The mock class list the form appends to. */
  class MockClasses {
    var classes: seq<ClassItem>

    constructor (fixtures: seq<ClassItem>)
      ensures classes == fixtures
    {
      classes := fixtures;
    }
  }

  /** `CreateClassForm`; the submission's timer is taken as having fired. */
  class CreateClassForm {
    const catalog: MockClasses
    var className: string
    var classCode: string
    var startTime: string
    var endTime: string
    var isLoading: bool

    constructor (catalog: MockClasses)
      ensures this.catalog == catalog
      ensures className == "" && classCode == "" && startTime == "" && endTime == "" && !isLoading
    {
      this.catalog := catalog;
      className := "";
      classCode := "";
      startTime := "";
      endTime := "";
      isLoading := false;
    }

    /** `handleSubmit`: refused unless all four fields are filled; otherwise
        one class is appended and the form is cleared. */
    method Submit() returns (accepted: bool)
      modifies this, catalog
      ensures accepted <==> old(className) != "" && old(classCode) != "" && old(startTime) != "" && old(endTime) != ""
      ensures !accepted ==> (catalog.classes == old(catalog.classes)
                             && className == old(className) && classCode == old(classCode)
                             && startTime == old(startTime) && endTime == old(endTime) && isLoading == old(isLoading))
      ensures accepted ==> (catalog.classes == old(catalog.classes) + [NewClass(old(catalog.classes), old(className), old(classCode))]
                            && className == "" && classCode == "" && startTime == "" && endTime == "" && !isLoading)
    {
      if className == "" || classCode == "" || startTime == "" || endTime == "" {
        return false;
      }
      isLoading := true;
      catalog.classes := catalog.classes + [NewClass(catalog.classes, className, classCode)];
      className := "";
      classCode := "";
      startTime := "";
      endTime := "";
      isLoading := false;
      accepted := true;
    }
  }

  // ------------------------------------------------- teacher dashboard

  datatype LiveSession = LiveSession(id: string, classItem: ClassItem, startTime: int, studentsMarked: nat)

  class TeacherDashboard {
    var isSessionActive: bool
    var activeSession: Option<LiveSession>

    /** The flag agrees with the presence of a session card. */
    predicate Consistent()
      reads this
    {
      isSessionActive <==> activeSession.Some?
    }

    constructor ()
      ensures !isSessionActive && activeSession.None? && Consistent()
    {
      isSessionActive := false;
      activeSession := None;
    }

    /** `startSession`, at clock reading `now` in milliseconds. */
    method StartSession(classItem: ClassItem, now: nat)
      modifies this
      ensures isSessionActive && activeSession == Some(LiveSession("S" + NatToString(now), classItem, now, 0))
      ensures Consistent()
    {
      isSessionActive := true;
      activeSession := Some(LiveSession("S" + NatToString(now), classItem, now, 0));
    }

    /** `endSession`. */
    method EndSession()
      modifies this
      ensures !isSessionActive && activeSession.None?
      ensures Consistent()
    {
      isSessionActive := false;
      activeSession := None;
    }
  }

  // ------------------------------------------------------- kiosk page

  datatype KioskStatus = SelectClass | CameraReady | Capturing | Processing | CameraError

  /** What the result badge shows. */
  datatype Recognized = Recognized(success: bool, name: Option<string>)

  /** A reply of the mock recogniser. */
  datatype Reply = Reply(success: bool, message: string, studentName: Option<string>)

  /** The page's state; `streaming` says whether the camera's tracks are
      live.  The page's effect depends on the class, the stream and the
      status, and its cleanup stops the tracks of the stream it saw, so the
      first change of class or status after the stream is set stops the
      camera. */
  datatype Kiosk = Kiosk(status: KioskStatus, isLoading: bool, message: string, result: Option<Recognized>,
                         classId: string, streaming: bool)

  const NOT_SUPPORTED: string := "Camera not supported by browser."
  const FEED_STARTED: string := "Camera feed started. Press \"Mark Attendance\" when ready."
  const NO_ACCESS: string := "Cannot access camera. Please check permissions."

  /** `initializeCamera` once `getUserMedia` settles. */
  function CameraInitialized(k: Kiosk, supported: bool, granted: bool): Kiosk
  {
    if !supported then k.(status := CameraError, message := NOT_SUPPORTED)
    else if granted then k.(status := CameraReady, streaming := true, message := FEED_STARTED)
    else k.(status := CameraError, message := NO_ACCESS)
  }

  /** Choosing a class; the effect starts the camera when a class is chosen
      while the page still asks for one. */
  function ClassChosen(k: Kiosk, classId: string, supported: bool, granted: bool): Kiosk
  {
    var chosen := k.(classId := classId, streaming := k.streaming && classId == k.classId);
    if classId != "" && k.status == SelectClass then CameraInitialized(chosen, supported, granted) else chosen
  }

  /** `handleCaptureAndRecognize` up to its await: the page and whether the
      image was sent to the recogniser. */
  function BeginRecognition(k: Kiosk, refsReady: bool): (Kiosk, bool)
  {
    if k.status != CameraReady || k.classId == "" then (k, false)
    else if !refsReady then (k.(isLoading := false, status := CameraReady, message := "Capturing face...", result := None), false)
    else (k.(isLoading := true, status := Processing, message := "Sending image for recognition...", result := None,
             streaming := false), true)
  }

  /** The rest of the handler, when the reply arrives. */
  function SettleRecognition(k: Kiosk, reply: Reply): Kiosk
  {
    k.(message := reply.message,
       result := Some(Recognized(reply.success, if reply.success then reply.studentName else None)),
       isLoading := false, status := CameraReady)
  }

  /** A capture is refused, with the page untouched, unless the camera is
      ready and a class is selected; every attempt that is not refused ends
      with the camera ready and nothing loading, whatever the reply. */
  lemma RecognitionRounds(k: Kiosk, refsReady: bool, reply: Reply)
    ensures var (t, sent) := BeginRecognition(k, refsReady);
      && ((k.status != CameraReady || k.classId == "") ==> t == k && !sent)
      && (k.status == CameraReady && k.classId != "" ==>
            sent == refsReady
            && (sent ==> t.isLoading && t.status == Processing && t.result.None?)
            && var done := if sent then SettleRecognition(t, reply) else t;
               done.status == CameraReady && !done.isLoading && done.classId == k.classId)
  {
  }

  /** The first capture that reaches the recogniser changes the status
      after the stream was set, so the effect's cleanup stops the camera; no
      later round of captures or replies restarts it, and only choosing
      another class while the page still asks for one would. */
  lemma FirstCaptureStopsCamera(k: Kiosk, refsReady: bool, reply: Reply)
    ensures var (t, sent) := BeginRecognition(k, refsReady);
      && (sent ==> !t.streaming && !SettleRecognition(t, reply).streaming)
      && (!sent ==> t.streaming == k.streaming)
      && (!k.streaming ==> !t.streaming && !SettleRecognition(t, reply).streaming)
  {
  }

  /** After a completed round the page accepts the next capture. */
  lemma ReadyForNextCapture(k: Kiosk, reply: Reply)
    requires k.status == CameraReady && k.classId != ""
    ensures var (t, _) := BeginRecognition(k, true);
      BeginRecognition(SettleRecognition(t, reply), true).1
  {
  }

  /** The result badge names a student only on success. */
  lemma SettleNamesOnlyOnSuccess(k: Kiosk, reply: Reply)
    ensures SettleRecognition(k, reply).result.value.name.Some? ==> reply.success
    ensures SettleRecognition(k, reply).message == reply.message
  {
  }

  class KioskPage {
    var status: KioskStatus
    var isLoading: bool
    var message: string
    var result: Option<Recognized>
    var classId: string
    var streaming: bool

    function Snapshot(): Kiosk
      reads this
    {
      Kiosk(status, isLoading, message, result, classId, streaming)
    }

    constructor ()
      ensures Snapshot() == Kiosk(SelectClass, false, "", None, "", false)
    {
      status := SelectClass;
      isLoading := false;
      message := "";
      result := None;
      classId := "";
      streaming := false;
    }

    method ChooseClass(id: string, supported: bool, granted: bool)
      modifies this
      ensures Snapshot() == ClassChosen(old(Snapshot()), id, supported, granted)
    {
      var start := id != "" && status == SelectClass;
      if id != classId {
        streaming := false;
      }
      classId := id;
      if start {
        status := CameraReady;
        if !supported {
          status := CameraError;
          message := NOT_SUPPORTED;
        } else if granted {
          streaming := true;
          message := FEED_STARTED;
        } else {
          status := CameraError;
          message := NO_ACCESS;
        }
      }
    }

    method CaptureAndRecognize(refsReady: bool) returns (sent: bool)
      modifies this
      ensures (Snapshot(), sent) == BeginRecognition(old(Snapshot()), refsReady)
    {
      sent := false;
      if status != CameraReady || classId == "" {
        return;
      }
      isLoading := true;
      status := Capturing;
      message := "Capturing face...";
      result := None;
      if !refsReady {
        isLoading := false;
        status := CameraReady;
        return;
      }
      status := Processing;
      message := "Sending image for recognition...";
      streaming := false;
      sent := true;
    }

    method RecognitionReplied(reply: Reply)
      modifies this
      ensures Snapshot() == SettleRecognition(old(Snapshot()), reply)
    {
      message := reply.message;
      if reply.success {
        result := Some(Recognized(true, reply.studentName));
      } else {
        result := Some(Recognized(false, None));
      }
      isLoading := false;
      status := CameraReady;
    }
  }
}
