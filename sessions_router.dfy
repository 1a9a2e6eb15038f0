/** The class-session lifecycle endpoints of backend/routers/sessions.py.
    A session is live at `now` when its stored flag is set and it has no end
    time or an end time after `now`; only the flag is ever written. */
module SessionsRouter {
  import opened Common
  import opened Models

  /** The request body of `POST /api/sessions/start`; `end_time` is
      required there, so a body without one is refused (422) before the
      endpoint runs.  The stored column may still be empty for rows written
      otherwise. */
  datatype StartRequest = StartRequest(
    subjectCode: string,
    startTime: int,
    endTime: int,
    facultyId: Option<Id>)

  /** One session as the endpoints report it. */
  datatype SessionView = SessionView(
    id: Id,
    subjectId: Id,
    facultyId: Option<Id>,
    startTime: int,
    endTime: Option<int>,
    isActive: bool)

  datatype StartOutcome =
    | SubjectNotFound                                  // HTTP 404
    | AlreadyActive                                    // HTTP 400
    | Started(view: SessionView, subjectCode: string)

  datatype EndOutcome = SessionNotFound | Ended        // HTTP 404 | {"ok": true}

  /** The liveness the routers derive from flag and clock. */
  predicate Live(s: ClassSession, now: int)
  {
    s.isActive && (s.endTime.None? || s.endTime.value > now)
  }

  /** The table invariant: no faculty has two sessions live at `now`. */
  ghost predicate OnePerFaculty(t: seq<ClassSession>, now: int)
  {
    forall i, j :: 0 <= i < j < |t| && t[i].facultyId.Some? && Live(t[i], now) && Live(t[j], now)
      ==> t[i].facultyId != t[j].facultyId
  }

  /** A live session of faculty `f`: the conflict the start endpoint looks for. */
  predicate LiveFor(s: ClassSession, f: Id, now: int)
  {
    s.facultyId == Some(f) && Live(s, now)
  }

  function ViewOf(s: ClassSession, isActive: bool): SessionView
  {
    SessionView(s.id, s.subjectId, s.facultyId, s.startTime, s.endTime, isActive)
  }

  // ------------------------------------------------------------ start

  /** What `start_session_by_code` does to the session table, given the
      subject table, the clock and the id the new row will receive. */
  function StartEffect(subjects: seq<Subject>, sessions: seq<ClassSession>, req: StartRequest,
                       now: int, newId: Id): (StartOutcome, seq<ClassSession>)
  {
    match Find(subjects, (s: Subject) => s.code == req.subjectCode)
    case None => (SubjectNotFound, sessions)
    case Some(subject) =>
      if req.facultyId.Some? && Find(sessions, (s: ClassSession) => LiveFor(s, req.facultyId.value, now)).Some? then
        (AlreadyActive, sessions)
      else
        var cs := ClassSession(newId, subject.id, req.facultyId, req.startTime, Some(req.endTime), true);
        (Started(ViewOf(cs, true), subject.code), sessions + [cs])
  }

  method StartSessionByCode(db: Store, req: StartRequest, now: int) returns (r: StartOutcome)
    modifies db`sessions, db`nextId
    ensures (r, db.sessions) == StartEffect(db.subjects, old(db.sessions), req, now, old(db.nextId))
    ensures db.nextId == old(db.nextId) + (if r.Started? then 1 else 0)
  {
    var subject := Find(db.subjects, (s: Subject) => s.code == req.subjectCode);
    if subject.None? {
      return SubjectNotFound;
    }
    if req.facultyId.Some? {
      var f := req.facultyId.value;
      var existing := Find(db.sessions, (s: ClassSession) => LiveFor(s, f, now));
      if existing.Some? {
        return AlreadyActive;
      }
    }
    var cs := ClassSession(db.nextId, subject.value.id, req.facultyId, req.startTime, Some(req.endTime), true);
    db.sessions := db.sessions + [cs];
    db.nextId := db.nextId + 1;
    r := Started(ViewOf(cs, true), subject.value.code);
  }

  /** The outcome ladder of the start endpoint: 404 exactly for an unknown
      code, 400 exactly for a faculty that already has a live session (and
      never without a faculty id), and otherwise one new active row carrying
      the request's subject, faculty and times. Failures write nothing. */
  lemma StartOutcomes(subjects: seq<Subject>, sessions: seq<ClassSession>, req: StartRequest, now: int, newId: Id)
    ensures var (r, t) := StartEffect(subjects, sessions, req, now, newId);
      && (r.SubjectNotFound? <==> forall i :: 0 <= i < |subjects| ==> subjects[i].code != req.subjectCode)
      && (r.AlreadyActive? <==>
            (exists i :: 0 <= i < |subjects| && subjects[i].code == req.subjectCode)
            && req.facultyId.Some?
            && exists k :: 0 <= k < |sessions| && LiveFor(sessions[k], req.facultyId.value, now))
      && (!r.Started? ==> t == sessions)
      && (r.Started? ==>
            && |t| == |sessions| + 1 && t[..|sessions|] == sessions
            && var cs := t[|sessions|];
            && cs.id == newId && cs.isActive && cs.facultyId == req.facultyId
            && cs.startTime == req.startTime && cs.endTime == Some(req.endTime)
            && r.subjectCode == req.subjectCode
            && (exists i :: 0 <= i < |subjects| && subjects[i].code == req.subjectCode && subjects[i].id == cs.subjectId)
            && r.view == ViewOf(cs, true))
  {
    var (r, t) := StartEffect(subjects, sessions, req, now, newId);
    if r.Started? {
      assert t[..|sessions|] == sessions;
    }
  }

  /** Starting never creates a second live session for a faculty: a
      successful start either has no faculty or found no live one for it. */
  lemma {:induction false} StartKeepsOnePerFaculty(subjects: seq<Subject>, sessions: seq<ClassSession>,
                                                  req: StartRequest, now: int, newId: Id)
    requires OnePerFaculty(sessions, now)
    ensures OnePerFaculty(StartEffect(subjects, sessions, req, now, newId).1, now)
  {
    var (r, t) := StartEffect(subjects, sessions, req, now, newId);
    if r.Started? {
      var cs := t[|sessions|];
      if req.facultyId.Some? {
        var f := req.facultyId.value;
        assert forall k :: 0 <= k < |sessions| ==> !LiveFor(sessions[k], f, now);
      }
      forall i, j | 0 <= i < j < |t| && t[i].facultyId.Some? && Live(t[i], now) && Live(t[j], now)
        ensures t[i].facultyId != t[j].facultyId
      {
        if j < |sessions| {
          assert t[i] == sessions[i] && t[j] == sessions[j];
        } else {
          assert t[i] == sessions[i] && t[j] == cs;
          if cs.facultyId.Some? {
            assert !LiveFor(sessions[i], cs.facultyId.value, now);
          }
        }
      }
    }
  }

  // -------------------------------------------------------------- end

  /** What `end_session` does: clear the flag of the first row with that id. */
  function EndEffect(sessions: seq<ClassSession>, id: Id): (EndOutcome, seq<ClassSession>)
  {
    match FirstIndex(sessions, (s: ClassSession) => s.id == id)
    case None => (SessionNotFound, sessions)
    case Some(k) => (Ended, sessions[k := sessions[k].(isActive := false)])
  }

  method EndSession(db: Store, id: Id) returns (r: EndOutcome)
    modifies db`sessions
    ensures (r, db.sessions) == EndEffect(old(db.sessions), id)
  {
    var k := FirstIndex(db.sessions, (s: ClassSession) => s.id == id);
    if k.None? {
      return SessionNotFound;
    }
    db.sessions := db.sessions[k.value := db.sessions[k.value].(isActive := false)];
    r := Ended;
  }

  /** 404 exactly for an unknown id; otherwise only the flag of that one
      session changes, to false. */
  lemma EndOutcomes(sessions: seq<ClassSession>, id: Id)
    ensures var (r, t) := EndEffect(sessions, id);
      && (r.SessionNotFound? <==> forall i :: 0 <= i < |sessions| ==> sessions[i].id != id)
      && |t| == |sessions|
      && (r.SessionNotFound? ==> t == sessions)
      && (r.Ended? ==> exists k :: 0 <= k < |sessions| && sessions[k].id == id
                         && t[k] == sessions[k].(isActive := false)
                         && forall i :: 0 <= i < |sessions| && i != k ==> t[i] == sessions[i])
  {
  }

  /** Ending the same session again succeeds with the same result and
      changes nothing further. */
  lemma EndIdempotent(sessions: seq<ClassSession>, id: Id)
    ensures var (r1, t1) := EndEffect(sessions, id);
            var (r2, t2) := EndEffect(t1, id);
            r2 == r1 && t2 == t1
  {
    var (r1, t1) := EndEffect(sessions, id);
    match FirstIndex(sessions, (s: ClassSession) => s.id == id)
    case None =>
    case Some(k) =>
      var k2 := FirstIndex(t1, (s: ClassSession) => s.id == id);
      assert t1[k].id == id;
      assert k2 == Some(k) by {
        assert forall j :: 0 <= j < k ==> t1[j] == sessions[j];
      }
  }

  /** Ending a session can only remove liveness, so the invariant survives. */
  lemma EndKeepsOnePerFaculty(sessions: seq<ClassSession>, id: Id, now: int)
    requires OnePerFaculty(sessions, now)
    ensures OnePerFaculty(EndEffect(sessions, id).1, now)
  {
    var t := EndEffect(sessions, id).1;
    assert forall i :: 0 <= i < |t| && Live(t[i], now) ==> t[i] == sessions[i];
  }

  /** Liveness only expires as the clock advances, so an invariant that held
      earlier still holds later. */
  lemma OnePerFacultyLater(sessions: seq<ClassSession>, now: int, later: int)
    requires now <= later && OnePerFaculty(sessions, now)
    ensures OnePerFaculty(sessions, later)
  {
    assert forall i :: 0 <= i < |sessions| && Live(sessions[i], later) ==> Live(sessions[i], now);
  }

  // ------------------------------------------------------------ reads

  /** `GET /api/sessions/active`: the sessions live at `now`, in table
      order, each reported as active. */
  function ActiveSessions(sessions: seq<ClassSession>, now: int): (r: seq<SessionView>)
    ensures |r| <= |sessions|
    ensures forall v :: v in r ==> v.isActive
    ensures forall s :: s in sessions && Live(s, now) ==> ViewOf(s, true) in r
    ensures forall v :: v in r ==> exists s :: s in sessions && Live(s, now) && v == ViewOf(s, true)
  {
    var live := Filter(sessions, (s: ClassSession) => Live(s, now));
    var r := Map(live, (s: ClassSession) => ViewOf(s, true));
    forall v | v in r ensures exists s :: s in sessions && Live(s, now) && v == ViewOf(s, true) {
      var k :| 0 <= k < |r| && r[k] == v;
      assert live[k] in live;
    }
    assert forall s :: s in live ==> ViewOf(s, true) in r by {
      forall s | s in live ensures ViewOf(s, true) in r {
        var k :| 0 <= k < |live| && live[k] == s;
        assert r[k] == ViewOf(s, true);
      }
    }
    r
  }

  /** `GET /api/sessions`: every session in table order, its `is_active`
      being the derived liveness. */
  function ListSessions(sessions: seq<ClassSession>, now: int): (r: seq<SessionView>)
    ensures |r| == |sessions|
    ensures forall i :: 0 <= i < |sessions| ==>
      r[i] == ViewOf(sessions[i], Live(sessions[i], now))
  {
    Map(sessions, (s: ClassSession) => ViewOf(s, Live(s, now)))
  }

  /** The two read endpoints agree: the active list is exactly the listed
      sessions reported active, in the same order. */
  lemma {:induction false} ActiveIsListedActive(sessions: seq<ClassSession>, now: int)
    ensures ActiveSessions(sessions, now) == Filter(ListSessions(sessions, now), (v: SessionView) => v.isActive)
  {
    if sessions != [] {
      var s := sessions[0];
      var rest := sessions[1..];
      ActiveIsListedActive(rest, now);
      assert ListSessions(sessions, now) == [ViewOf(s, Live(s, now))] + ListSessions(rest, now);
      var live := Filter(sessions, (c: ClassSession) => Live(c, now));
      var liveRest := Filter(rest, (c: ClassSession) => Live(c, now));
      assert live == (if Live(s, now) then [s] else []) + liveRest;
      assert Map(live, (c: ClassSession) => ViewOf(c, true))
          == (if Live(s, now) then [ViewOf(s, true)] else []) + Map(liveRest, (c: ClassSession) => ViewOf(c, true));
    }
  }
}
