/** The attendance helpers of backend/crud/attendance.py over the
    integer-keyed ledger: insert, existence check, per-student query and
    upsert of a status. */
module AttendanceCrud {
  import opened Common
  import opened Schema

  /** The status a record gets when the caller names none. */
  const DEFAULT_STATUS: string := "Present"

  /** The ledger key: one record per (student, session) is intended. */
  function Key(r: AttendanceRecord): (nat, nat)
  {
    (r.studentId, r.sessionId)
  }

  predicate IsFor(r: AttendanceRecord, studentId: nat, sessionId: nat)
  {
    r.studentId == studentId && r.sessionId == sessionId
  }

  /** `create_attendance_record`: append one record stamped with `now`. */
  method CreateAttendanceRecord(db: Database, studentId: nat, sessionId: nat, status: string, now: int)
    returns (record: AttendanceRecord)
    modifies db`records, db`nextId
    ensures record == AttendanceRecord(old(db.nextId), studentId, sessionId, status, now)
    ensures db.records == old(db.records) + [record]
    ensures db.nextId == old(db.nextId) + 1
  {
    record := AttendanceRecord(db.nextId, studentId, sessionId, status, now);
    db.records := db.records + [record];
    db.nextId := db.nextId + 1;
  }

  /** `check_existing_attendance`: the first record of that student in that
      session, None exactly when there is none. */
  function CheckExistingAttendance(records: seq<AttendanceRecord>, studentId: nat, sessionId: nat)
    : (r: Option<AttendanceRecord>)
    ensures r.None? <==> forall i :: 0 <= i < |records| ==> !IsFor(records[i], studentId, sessionId)
    ensures r.Some? ==> r.value in records && IsFor(r.value, studentId, sessionId)
  {
    Find(records, (rec: AttendanceRecord) => IsFor(rec, studentId, sessionId))
  }

  /** `get_attendance_by_student`: exactly that student's records, in order. */
  function GetAttendanceByStudent(records: seq<AttendanceRecord>, studentId: nat): (r: seq<AttendanceRecord>)
    ensures forall x :: x in r <==> x in records && x.studentId == studentId
    ensures |r| <= |records|
  {
    Filter(records, (rec: AttendanceRecord) => rec.studentId == studentId)
  }

  /** The ledger `update_attendance_status` leaves behind: the status of the
      first record for the pair is overwritten, or a record is appended when
      there is none. */
  function Upserted(records: seq<AttendanceRecord>, studentId: nat, sessionId: nat, status: string,
                    newId: nat, now: int): seq<AttendanceRecord>
  {
    match FirstIndex(records, (rec: AttendanceRecord) => IsFor(rec, studentId, sessionId))
    case Some(k) => records[k := records[k].(status := status)]
    case None => records + [AttendanceRecord(newId, studentId, sessionId, status, now)]
  }

  method UpdateAttendanceStatus(db: Database, studentId: nat, sessionId: nat, status: string, now: int)
    returns (record: AttendanceRecord)
    modifies db`records, db`nextId
    ensures db.records == Upserted(old(db.records), studentId, sessionId, status, old(db.nextId), now)
    ensures record.status == status && IsFor(record, studentId, sessionId) && record in db.records
    ensures db.nextId == old(db.nextId) + |db.records| - |old(db.records)|
  {
    var k := FirstIndex(db.records, (rec: AttendanceRecord) => IsFor(rec, studentId, sessionId));
    if k.Some? {
      record := db.records[k.value].(status := status);
      db.records := db.records[k.value := record];
      assert db.records[k.value] == record;
    } else {
      record := AttendanceRecord(db.nextId, studentId, sessionId, status, now);
      db.records := db.records + [record];
      db.nextId := db.nextId + 1;
    }
  }

  /** On an existing pair only that record's status changes and no record is
      added; on a missing pair exactly one record with the given status is
      appended. */
  lemma UpsertCases(records: seq<AttendanceRecord>, studentId: nat, sessionId: nat, status: string,
                    newId: nat, now: int)
    ensures var t := Upserted(records, studentId, sessionId, status, newId, now);
      && ((exists i :: 0 <= i < |records| && IsFor(records[i], studentId, sessionId)) ==>
            |t| == |records|
            && exists k :: 0 <= k < |records| && IsFor(records[k], studentId, sessionId)
                 && t[k] == records[k].(status := status)
                 && forall i :: 0 <= i < |records| && i != k ==> t[i] == records[i])
      && ((forall i :: 0 <= i < |records| ==> !IsFor(records[i], studentId, sessionId)) ==>
            t == records + [AttendanceRecord(newId, studentId, sessionId, status, now)])
  {
  }

  /** Upserting keeps the ledger at one record per (student, session), and
      afterwards the pair's one record carries the new status. */
  lemma UpsertKeepsOneRecordPerPair(records: seq<AttendanceRecord>, studentId: nat, sessionId: nat,
                                    status: string, newId: nat, now: int)
    requires UniqueBy(records, Key)
    ensures var t := Upserted(records, studentId, sessionId, status, newId, now);
      && UniqueBy(t, Key)
      && exists k :: 0 <= k < |t| && IsFor(t[k], studentId, sessionId) && t[k].status == status
           && forall i :: 0 <= i < |t| && i != k ==> !IsFor(t[i], studentId, sessionId)
  {
    var t := Upserted(records, studentId, sessionId, status, newId, now);
    match FirstIndex(records, (rec: AttendanceRecord) => IsFor(rec, studentId, sessionId))
    case Some(k) =>
      UpdateSameKey(records, k, records[k].(status := status), Key);
      assert IsFor(t[k], studentId, sessionId) && t[k].status == status;
      forall i | 0 <= i < |t| && i != k ensures !IsFor(t[i], studentId, sessionId) {
        assert Key(records[i]) != Key(records[k]) || i == k;
      }
    case None =>
      var x := AttendanceRecord(newId, studentId, sessionId, status, now);
      AppendFreshKey(records, x, Key);
      assert IsFor(t[|records|], studentId, sessionId);
  }

  /** Inserting through `create_attendance_record` keeps the ledger unique
      exactly when the pair had no record: the existence check is what the
      callers rely on. */
  lemma CreateAfterCheckKeepsUnique(records: seq<AttendanceRecord>, x: AttendanceRecord)
    requires UniqueBy(records, Key)
    requires CheckExistingAttendance(records, x.studentId, x.sessionId).None?
    ensures UniqueBy(records + [x], Key)
  {
    AppendFreshKey(records, x, Key);
  }
}
