/** The client-side bookkeeping of context/AppContext.tsx: session
    normalisation and the active-session lookup, subject resolution for
    starting a session, the glue around the kiosk submissions, the
    face-database counter updated after training, and the enrolment calls
    made after creating a user.  HTTP calls are taken as their results. */
module AppContext {
  import opened Common
  import FaceDetection
  import KioskRouter

  datatype Role = STUDENT | FACULTY | ADMIN

  datatype ClientUser = ClientUser(id: string, name: string, email: string, role: Role,
                                   enrollmentNo: string, subjectIds: seq<string>)

  datatype ClientSubject = ClientSubject(id: string, name: string, code: string)

  /** A session as the client keeps it; times are instants on one clock. */
  datatype ClientSession = ClientSession(
    id: string,
    subjectId: Option<string>,
    facultyId: Option<string>,
    startTime: Option<int>,
    endTime: Option<int>,
    isActive: bool)

  /** A session as the server sends it, in either naming; a missing or null
      field is None. */
  datatype RawSession = RawSession(
    id: string,
    subject_id: Option<string>, subjectId: Option<string>,
    faculty_id: Option<string>, facultyId: Option<string>,
    start_time: Option<int>, startTime: Option<int>,
    end_time: Option<int>, endTime: Option<int>,
    is_active: Option<bool>, isActive: Option<bool>)

  /** JavaScript's `a ?? b`. */
  function Coalesce<T>(a: Option<T>, b: Option<T>): (r: Option<T>)
    ensures a.Some? ==> r == a
    ensures a.None? ==> r == b
  {
    if a.Some? then a else b
  }

  /** `normalizeSession`: the snake_case field wins, the camelCase one is
      the fallback; isActive defaults to true. */
  function NormalizeSession(s: RawSession): (r: ClientSession)
    ensures r.subjectId == (if s.subject_id.Some? then s.subject_id else s.subjectId)
    ensures r.facultyId == (if s.faculty_id.Some? then s.faculty_id else s.facultyId)
    ensures r.endTime == (if s.end_time.Some? then s.end_time else s.endTime)
    ensures r.isActive == (if s.is_active.Some? then s.is_active.value
                           else if s.isActive.Some? then s.isActive.value else true)
  {
    ClientSession(
      s.id,
      Coalesce(s.subject_id, s.subjectId),
      Coalesce(s.faculty_id, s.facultyId),
      Coalesce(s.start_time, s.startTime),
      Coalesce(s.end_time, s.endTime),
      if s.is_active.Some? then s.is_active.value else if s.isActive.Some? then s.isActive.value else true)
  }

  /** The camelCase rendering of a client session. */
  function AsCamel(s: ClientSession): RawSession
  {
    RawSession(s.id, None, s.subjectId, None, s.facultyId, None, s.startTime, None, s.endTime, None, Some(s.isActive))
  }

  /** The snake_case rendering, as the server sends it. */
  function AsSnake(s: ClientSession): RawSession
  {
    RawSession(s.id, s.subjectId, None, s.facultyId, None, s.startTime, None, s.endTime, None, Some(s.isActive), None)
  }

  /** Normalising is a left inverse of both renderings, so normalising an
      already normalised session changes nothing. */
  lemma NormalizeRoundTrip(s: ClientSession)
    ensures NormalizeSession(AsCamel(s)) == s
    ensures NormalizeSession(AsSnake(s)) == s
  {
  }

  /** A session whose server answer has no flag at all counts as active. */
  lemma NormalizeDefaultsActive(s: RawSession)
    requires s.is_active.None? && s.isActive.None?
    ensures NormalizeSession(s).isActive
  {
  }

  /** A JavaScript truthiness test on an optional string. */
  predicate Truthy(s: Option<string>)
  {
    s.Some? && s.value != ""
  }

  /** The test `getActiveSession` applies to each session. */
  predicate ActiveFor(s: ClientSession, facultyId: Option<string>, now: int)
  {
    s.isActive
    && (!Truthy(facultyId) || s.facultyId == facultyId)
    && (s.endTime.None? || s.endTime.value > now)
  }

  /** `getActiveSession`: the first session, in list order, that is flagged
      active, belongs to the given faculty when a non-empty one is given, and
      has no end time or one after `now`. */
  function GetActiveSession(sessions: seq<ClientSession>, facultyId: Option<string>, now: int)
    : (r: Option<ClientSession>)
    ensures r.None? <==> forall i :: 0 <= i < |sessions| ==> !ActiveFor(sessions[i], facultyId, now)
    ensures r.Some? ==> (exists i :: 0 <= i < |sessions| && sessions[i] == r.value && ActiveFor(r.value, facultyId, now)
                                      && forall j :: 0 <= j < i ==> !ActiveFor(sessions[j], facultyId, now))
  {
    Find(sessions, (s: ClientSession) => ActiveFor(s, facultyId, now))
  }

  /** Asking for a faculty can only narrow the answer: whenever some faculty
      has an active session, the unfiltered lookup finds one too, and an
      empty faculty id does not filter at all. */
  lemma GetActiveSessionFacultyNarrows(sessions: seq<ClientSession>, f: string, now: int)
    ensures GetActiveSession(sessions, Some(f), now).Some? ==> GetActiveSession(sessions, None, now).Some?
    ensures GetActiveSession(sessions, Some(""), now) == GetActiveSession(sessions, None, now)
  {
    assert forall s :: ActiveFor(s, Some(f), now) ==> ActiveFor(s, None, now);
    FirstIndexAgree(sessions, (s: ClientSession) => ActiveFor(s, Some(""), now),
                    (s: ClientSession) => ActiveFor(s, None, now));
  }

  // ------------------------------------------------------ start session

  /** `startSession`'s subject resolution: the code of the subject with
      that id, else of the subject with that code, else the argument as it
      is. */
  function ResolveSubjectCode(subjects: seq<ClientSubject>, idOrCode: string): (code: string)
    ensures (exists i :: 0 <= i < |subjects| && subjects[i].id == idOrCode) ==>
      (exists i :: 0 <= i < |subjects| && subjects[i].id == idOrCode && code == subjects[i].code
                   && forall j :: 0 <= j < i ==> subjects[j].id != idOrCode)
    ensures (forall i :: 0 <= i < |subjects| ==> subjects[i].id != idOrCode) ==> code == idOrCode
  {
    match Find(subjects, (s: ClientSubject) => s.id == idOrCode)
    case Some(s) => s.code
    case None =>
      match Find(subjects, (s: ClientSubject) => s.code == idOrCode)
      case Some(s) => s.code
      case None => idOrCode
  }

  // ------------------------------------------------------------- kiosk

  /** The segment after the first comma, up to the next comma or the end:
      JavaScript's `s.split(",")[1]`, undefined when there is no comma. */
  function SecondSegment(s: string): (r: Option<string>)
    ensures r.None? <==> ',' !in s
    ensures r.Some? ==> ',' !in r.value
    ensures r.Some? ==> (exists i :: 0 <= i < |s| && s[i] == ',' && ',' !in s[..i]
                                     && |r.value| <= |s| - i - 1 && s[i + 1..][..|r.value|] == r.value
                                     && (|s| - i - 1 == |r.value| || s[i + 1..][|r.value|] == ','))
  {
    match FirstIndex(s, (c: char) => c == ',')
    case None => None
    case Some(i) =>
      assert forall c :: c in s[..i] ==> c != ',';
      var rest := s[i + 1..];
      match FirstIndex(rest, (c: char) => c == ',')
      case None => Some(rest)
      case Some(j) =>
        assert forall c :: c in rest[..j] ==> c != ',';
        Some(rest[..j])
  }

  /** `markAttendance`'s preprocessing: a `data:` URL is replaced by its
      second comma-separated segment, anything else is sent as it is. */
  function StripDataUrl(s: string): (r: Option<string>)
    ensures !StartsWith(s, "data:") ==> r == Some(s)
    ensures StartsWith(s, "data:") ==> r == SecondSegment(s)
  {
    if StartsWith(s, "data:") then SecondSegment(s) else Some(s)
  }

  /** For a data URL whose header and payload hold no comma, the client
      sends exactly the payload, which is also what the server's own split
      would decode. */
  lemma StripDataUrlPayload(header: string, payload: string)
    requires ',' !in header && ',' !in payload
    ensures StripDataUrl("data:" + header + "," + payload) == Some(payload)
    ensures FaceDetection.PayloadOf("data:" + header + "," + payload) == payload
  {
    var h := "data:" + header;
    var s := h + "," + payload;
    assert "data:" + header + "," + payload == s;
    assert s[..5] == "data:";
    assert ',' !in h by {
      assert forall k :: 0 <= k < |h| ==> h[k] == (if k < 5 then "data:"[k] else header[k - 5]);
    }
    assert s[|h|] == ',';
    assert forall k :: 0 <= k < |h| ==> s[k] == h[k];
    var i := FirstIndex(s, (c: char) => c == ',').value;
    assert i == |h|;
    assert s[i + 1..] == payload;
    FaceDetection.PayloadOfHeader(h, payload);
  }

  /** The attendance list is fetched again exactly when the answer's
      status is "matched". */
  predicate ShouldRefetch(status: Option<string>)
  {
    status == Some("matched")
  }

  /** The refetch happens exactly when the single-probe endpoint wrote a
      record, and the same holds for the multi-frame endpoint. */
  lemma RefetchIffRecorded(r: KioskRouter.KioskResult, m: KioskRouter.MultiResult)
    ensures ShouldRefetch(Some(KioskRouter.StatusText(r))) <==> r.Matched?
    ensures ShouldRefetch(KioskRouter.MultiStatusText(m)) <==> m.StudentMatched?
  {
  }

  /** The upload name of frame `f` of camera `c`: `cam{c+1}_frame{f+1}.jpg`. */
  function FrameFileName(c: nat, f: nat): string
  {
    "cam" + NatToString(c + 1) + "_frame" + NatToString(f + 1) + ".jpg"
  }

  /** A frame name's two numerals are determined by the name. */
  lemma FrameNameSplit(a1: string, b1: string, a2: string, b2: string)
    requires AllDigits(a1) && AllDigits(b1) && AllDigits(a2) && AllDigits(b2)
    requires "cam" + a1 + "_frame" + b1 + ".jpg" == "cam" + a2 + "_frame" + b2 + ".jpg"
    ensures a1 == a2 && b1 == b2
  {
    var t1, t2 := "_frame" + b1 + ".jpg", "_frame" + b2 + ".jpg";
    assert "cam" + a1 + "_frame" + b1 + ".jpg" == "cam" + (a1 + t1);
    assert "cam" + a2 + "_frame" + b2 + ".jpg" == "cam" + (a2 + t2);
    assert a1 + t1 == ("cam" + (a1 + t1))[3..];
    assert a2 + t2 == ("cam" + (a2 + t2))[3..];
    DigitsSplit(a1, t1, a2, t2);
    assert b1 + ".jpg" == t1[6..];
    assert b2 + ".jpg" == t2[6..];
    DigitsSplit(b1, ".jpg", b2, ".jpg");
  }

  /** The camera and frame numbers can be read back from a frame's name,
      so distinct frames are uploaded under distinct names. */
  lemma FrameFileNameInjective(c1: nat, f1: nat, c2: nat, f2: nat)
    requires FrameFileName(c1, f1) == FrameFileName(c2, f2)
    ensures c1 == c2 && f1 == f2
  {
    var a1, b1 := NatToString(c1 + 1), NatToString(f1 + 1);
    var a2, b2 := NatToString(c2 + 1), NatToString(f2 + 1);
    assert AllDigits(a1) && AllDigits(b1) && AllDigits(a2) && AllDigits(b2);
    FrameNameSplit(a1, b1, a2, b2);
    NatToStringInjective(c1 + 1, c2 + 1);
    NatToStringInjective(f1 + 1, f2 + 1);
  }

  /** Different numbers are rendered differently. */
  lemma NatToStringInjective(x: nat, y: nat)
    requires NatToString(x) == NatToString(y)
    ensures x == y
  {
    NatToStringValue(x);
    NatToStringValue(y);
  }

  // ------------------------------------------------ client state

  /** The per-student count of uploaded training images. */
  datatype FaceData = FaceData(studentId: string, imageCount: int)

  function StudentKey(d: FaceData): string
  {
    d.studentId
  }

  /** JavaScript's `n || 0` on an optional count. */
  function OrZero(n: Option<int>): int
  {
    if n.None? then 0 else n.value
  }

  /** The face database after a training upload that the server answered
      with `accepted`: the matching user's entry grows by that many images,
      or gets appended; nothing changes for an unknown enrollment number. */
  function Trained(users: seq<ClientUser>, db: seq<FaceData>, enrollmentNo: string, accepted: Option<int>)
    : seq<FaceData>
  {
    match Find(users, (u: ClientUser) => u.enrollmentNo == enrollmentNo)
    case None => db
    case Some(student) =>
      match FirstIndex(db, (d: FaceData) => d.studentId == student.id)
      case Some(k) => db[k := db[k].(imageCount := db[k].imageCount + OrZero(accepted))]
      case None => db + [FaceData(student.id, OrZero(accepted))]
  }

  /** The context's state: what was fetched from the server and the client
      side face database. */
  class AppState {
    var users: seq<ClientUser>
    var subjects: seq<ClientSubject>
    var sessions: seq<ClientSession>
    var faceDatabase: seq<FaceData>

    constructor (users0: seq<ClientUser>, subjects0: seq<ClientSubject>, faceDatabase0: seq<FaceData>)
      ensures users == users0 && subjects == subjects0 && sessions == [] && faceDatabase == faceDatabase0
    {
      users := users0;
      subjects := subjects0;
      sessions := [];
      faceDatabase := faceDatabase0;
    }

    /** `trainModel` after the upload succeeded with `accepted` images. */
    method TrainModel(enrollmentNo: string, accepted: Option<int>)
      modifies this`faceDatabase
      ensures faceDatabase == Trained(users, old(faceDatabase), enrollmentNo, accepted)
    {
      var student := Find(users, (u: ClientUser) => u.enrollmentNo == enrollmentNo);
      if student.None? {
        return;
      }
      var idx := FirstIndex(faceDatabase, (d: FaceData) => d.studentId == student.value.id);
      if idx.Some? {
        var updated := faceDatabase;
        updated := updated[idx.value := updated[idx.value].(imageCount := updated[idx.value].imageCount + OrZero(accepted))];
        faceDatabase := updated;
      } else {
        faceDatabase := faceDatabase + [FaceData(student.value.id, OrZero(accepted))];
      }
    }
  }

  /** The user `trainModel` picks: the first one with that enrollment number. */
  predicate FirstWithEnrollment(users: seq<ClientUser>, u: nat, enrollmentNo: string)
  {
    u < |users| && users[u].enrollmentNo == enrollmentNo
    && forall v :: 0 <= v < u ==> users[v].enrollmentNo != enrollmentNo
  }

  /** An unknown enrollment number leaves the face database alone. */
  lemma TrainedUnknown(users: seq<ClientUser>, db: seq<FaceData>, enrollmentNo: string, accepted: Option<int>)
    requires forall i :: 0 <= i < |users| ==> users[i].enrollmentNo != enrollmentNo
    ensures Trained(users, db, enrollmentNo, accepted) == db
  {
  }

  lemma FindFirstWithEnrollment(users: seq<ClientUser>, u: nat, enrollmentNo: string)
    requires FirstWithEnrollment(users, u, enrollmentNo)
    ensures Find(users, (x: ClientUser) => x.enrollmentNo == enrollmentNo) == Some(users[u])
  {
    var r := Find(users, (x: ClientUser) => x.enrollmentNo == enrollmentNo);
    var i :| 0 <= i < |users| && users[i] == r.value && users[i].enrollmentNo == enrollmentNo
             && forall j :: 0 <= j < i ==> users[j].enrollmentNo != enrollmentNo;
    assert !(i < u) && !(u < i);
  }

  /** A student who already has an entry: that entry, and only it, grows
      by the accepted count, a missing count adding nothing. */
  lemma TrainedGrows(users: seq<ClientUser>, db: seq<FaceData>, enrollmentNo: string, accepted: Option<int>,
                     u: nat, k: nat)
    requires FirstWithEnrollment(users, u, enrollmentNo)
    requires UniqueBy(db, StudentKey) && k < |db| && db[k].studentId == users[u].id
    ensures var t := Trained(users, db, enrollmentNo, accepted);
      |t| == |db| && t[k] == FaceData(users[u].id, db[k].imageCount + OrZero(accepted))
      && forall j :: 0 <= j < |db| && j != k ==> t[j] == db[j]
  {
    FindFirstWithEnrollment(users, u, enrollmentNo);
    var idx := FirstIndex(db, (d: FaceData) => d.studentId == users[u].id);
    assert idx.Some?;
    assert StudentKey(db[idx.value]) == StudentKey(db[k]);
    assert idx.value == k;
  }

  /** A student without an entry gets one at the end, holding the accepted
      count. */
  lemma TrainedAppends(users: seq<ClientUser>, db: seq<FaceData>, enrollmentNo: string, accepted: Option<int>,
                       u: nat)
    requires FirstWithEnrollment(users, u, enrollmentNo)
    requires forall k :: 0 <= k < |db| ==> db[k].studentId != users[u].id
    ensures Trained(users, db, enrollmentNo, accepted) == db + [FaceData(users[u].id, OrZero(accepted))]
  {
    FindFirstWithEnrollment(users, u, enrollmentNo);
  }

  /** The face database keeps one entry per student. */
  lemma TrainedKeepsOneEntryPerStudent(users: seq<ClientUser>, db: seq<FaceData>, enrollmentNo: string,
                                       accepted: Option<int>)
    requires UniqueBy(db, StudentKey)
    ensures UniqueBy(Trained(users, db, enrollmentNo, accepted), StudentKey)
  {
    match Find(users, (u: ClientUser) => u.enrollmentNo == enrollmentNo)
    case None =>
    case Some(student) =>
      match FirstIndex(db, (d: FaceData) => d.studentId == student.id)
      case Some(k) =>
        UpdateSameKey(db, k, db[k].(imageCount := db[k].imageCount + OrZero(accepted)), StudentKey);
      case None =>
        AppendFreshKey(db, FaceData(student.id, OrZero(accepted)), StudentKey);
  }

  // ---------------------------------------------------------- add user

  /** The subject codes to enrol in, for the ids of `subjectIds` that name a
      known subject, in order. */
  function PlannedCodes(subjects: seq<ClientSubject>, subjectIds: seq<string>): (r: seq<string>)
    ensures |r| <= |subjectIds|
    ensures forall c :: c in r ==> exists i :: 0 <= i < |subjects| && subjects[i].code == c
    decreases |subjectIds|
  {
    if subjectIds == [] then []
    else
      var init := subjectIds[..|subjectIds| - 1];
      var sid := subjectIds[|subjectIds| - 1];
      PlannedCodes(subjects, init)
        + match Find(subjects, (s: ClientSubject) => s.id == sid)
          case None => []
          case Some(sub) => [sub.code]
  }

  /** Every selected id naming a known subject contributes the code of the
      first subject with that id. */
  lemma {:induction false} PlannedCodesComplete(subjects: seq<ClientSubject>, subjectIds: seq<string>)
    ensures forall j :: 0 <= j < |subjectIds| ==>
      var sub := Find(subjects, (s: ClientSubject) => s.id == subjectIds[j]);
      sub.Some? ==> sub.value.code in PlannedCodes(subjects, subjectIds)
    decreases |subjectIds|
  {
    if subjectIds != [] {
      var init := subjectIds[..|subjectIds| - 1];
      var sid := subjectIds[|subjectIds| - 1];
      PlannedCodesComplete(subjects, init);
      assert subjectIds == init + [sid];
      PlannedCodesSnoc(subjects, init, sid);
      forall j | 0 <= j < |init|
        ensures init[j] == subjectIds[j]
      {
      }
    }
  }

  /** Each planned code belongs to a subject whose id was selected. */
  lemma {:induction false} PlannedCodesExact(subjects: seq<ClientSubject>, subjectIds: seq<string>)
    ensures forall c :: c in PlannedCodes(subjects, subjectIds) ==>
      exists i, j :: 0 <= i < |subjects| && 0 <= j < |subjectIds| && subjects[i].id == subjectIds[j] && subjects[i].code == c
    decreases |subjectIds|
  {
    if subjectIds != [] {
      var init := subjectIds[..|subjectIds| - 1];
      PlannedCodesExact(subjects, init);
      var sid := subjectIds[|subjectIds| - 1];
      var r := PlannedCodes(subjects, subjectIds);
      forall c | c in r
        ensures exists i, j :: 0 <= i < |subjects| && 0 <= j < |subjectIds| && subjects[i].id == subjectIds[j] && subjects[i].code == c
      {
        if c in PlannedCodes(subjects, init) {
          var i, j :| 0 <= i < |subjects| && 0 <= j < |init| && subjects[i].id == init[j] && subjects[i].code == c;
          assert subjectIds[j] == init[j];
        } else {
          var sub := Find(subjects, (s: ClientSubject) => s.id == sid).value;
          var i :| 0 <= i < |subjects| && subjects[i] == sub;
          assert subjectIds[|subjectIds| - 1] == sid;
        }
      }
    }
  }

  lemma PlannedCodesSnoc(subjects: seq<ClientSubject>, ids: seq<string>, sid: string)
    ensures PlannedCodes(subjects, ids + [sid]) == PlannedCodes(subjects, ids)
      + match Find(subjects, (s: ClientSubject) => s.id == sid)
        case None => []
        case Some(sub) => [sub.code]
  {
    assert (ids + [sid])[..|ids|] == ids;
  }

  /** The codes planned for a prefix of the selection are a prefix of the
      codes planned for the whole selection. */
  lemma {:induction false} PlannedCodesPrefix(subjects: seq<ClientSubject>, ids: seq<string>, i: nat)
    requires i <= |ids|
    ensures PlannedCodes(subjects, ids[..i]) <= PlannedCodes(subjects, ids)
    decreases |ids|
  {
    if i < |ids| {
      var init := ids[..|ids| - 1];
      assert init[..i] == ids[..i];
      PlannedCodesPrefix(subjects, init, i);
      var front := PlannedCodes(subjects, init);
      assert PlannedCodes(subjects, ids)[..|front|] == front;
    } else {
      assert ids[..i] == ids;
    }
  }

  /** One more selected id adds the call for its subject, if it names one. */
  lemma PairsStep(enrollmentNo: string, subjects: seq<ClientSubject>, ids: seq<string>, i: nat)
    requires i < |ids|
    ensures Pairs(enrollmentNo, PlannedCodes(subjects, ids[..i + 1]))
      == Pairs(enrollmentNo, PlannedCodes(subjects, ids[..i]))
         + match Find(subjects, (s: ClientSubject) => s.id == ids[i])
           case None => []
           case Some(sub) => [(enrollmentNo, sub.code)]
  {
    assert ids[..i + 1] == ids[..i] + [ids[i]];
    PlannedCodesSnoc(subjects, ids[..i], ids[i]);
  }

  /** The `enrollSubject` calls for a user and a list of codes. */
  function Pairs(enrollmentNo: string, codes: seq<string>): (r: seq<(string, string)>)
    ensures |r| == |codes|
    ensures forall k :: 0 <= k < |r| ==> r[k] == (enrollmentNo, codes[k])
  {
    Map(codes, (c: string) => (enrollmentNo, c))
  }

  /** Pairing keeps prefixes. */
  lemma PairsPrefix(enrollmentNo: string, a: seq<string>, b: seq<string>)
    requires a <= b
    ensures Pairs(enrollmentNo, a) <= Pairs(enrollmentNo, b)
  {
    assert Pairs(enrollmentNo, a) == Pairs(enrollmentNo, b)[..|a|];
  }

  /** Every call but the last was accepted. */
  predicate AcceptedBeforeLast(calls: seq<(string, string)>, enrolled: (string, string) -> bool)
  {
    forall k :: 0 <= k < |calls| - 1 ==> enrolled(calls[k].0, calls[k].1)
  }

  /** The last call was refused. */
  predicate LastRefused(calls: seq<(string, string)>, enrolled: (string, string) -> bool)
  {
    |calls| > 0 && !enrolled(calls[|calls| - 1].0, calls[|calls| - 1].1)
  }

  /** A call made after an accepted one keeps every earlier call accepted. */
  lemma AcceptedSnoc(calls: seq<(string, string)>, pair: (string, string), enrolled: (string, string) -> bool)
    requires AcceptedBeforeLast(calls, enrolled) && !LastRefused(calls, enrolled)
    ensures AcceptedBeforeLast(calls + [pair], enrolled)
    ensures LastRefused(calls + [pair], enrolled) <==> !enrolled(pair.0, pair.1)
  {
    var t := calls + [pair];
    forall k | 0 <= k < |t| - 1
      ensures enrolled(t[k].0, t[k].1)
    {
      assert t[k] == calls[k];
    }
  }

  /** `addUser`'s enrolment loop: the `(enrollmentNo, code)` pairs passed to
      `enrollSubject`, one per selected id naming a known subject, in
      selection order; none for an administrator or an empty selection.
      `enrolled` says whether the server accepts a call.  `enrollSubject`
      rethrows a refusal and `addUser` rethrows it again, so the first
      refused call ends the loop, `failed` is set, and the final
      `fetchAllUsers` is skipped.  A user whose enrollment number is unknown
      to the server (a faculty member, normalised to "") is refused at the
      first call. */
  method EnrollmentCalls(created: ClientUser, subjectIds: seq<string>, subjects: seq<ClientSubject>,
                         enrolled: (string, string) -> bool)
    returns (calls: seq<(string, string)>, failed: bool)
    ensures created.role == ADMIN || subjectIds == [] ==> calls == [] && !failed
    ensures created.role != ADMIN ==> calls <= Pairs(created.enrollmentNo, PlannedCodes(subjects, subjectIds))
    ensures created.role != ADMIN && !failed ==> calls == Pairs(created.enrollmentNo, PlannedCodes(subjects, subjectIds))
    ensures AcceptedBeforeLast(calls, enrolled)
    ensures failed <==> LastRefused(calls, enrolled)
  {
    calls, failed := [], false;
    if created.role == ADMIN || |subjectIds| == 0 {
      return;
    }
    var i := 0;
    while i < |subjectIds| && !failed
      invariant 0 <= i <= |subjectIds|
      invariant calls == Pairs(created.enrollmentNo, PlannedCodes(subjects, subjectIds[..i]))
      invariant AcceptedBeforeLast(calls, enrolled)
      invariant failed <==> LastRefused(calls, enrolled)
    {
      var sid := subjectIds[i];
      PairsStep(created.enrollmentNo, subjects, subjectIds, i);
      var sub := Find(subjects, (s: ClientSubject) => s.id == sid);
      if sub.Some? {
        var pair := (created.enrollmentNo, sub.value.code);
        AcceptedSnoc(calls, pair, enrolled);
        calls := calls + [pair];
        failed := !enrolled(pair.0, pair.1);
      }
      i := i + 1;
    }
    PlannedCodesPrefix(subjects, subjectIds, i);
    PairsPrefix(created.enrollmentNo, PlannedCodes(subjects, subjectIds[..i]), PlannedCodes(subjects, subjectIds));
    if !failed {
      assert subjectIds[..|subjectIds|] == subjectIds;
    }
  }
}
