/** The ledger read endpoints of backend/routers/attendance.py over the
    UUID-keyed tables: the optionally filtered list and the per-session CSV
    export (row layout only; quoting is left to the csv module). */
module AttendanceRouter {
  import opened Common
  import opened Models

  datatype AttendanceItem = AttendanceItem(
    id: Id,
    sessionId: Id,
    studentId: Id,
    timestamp: int,
    status: string,
    confidence: Option<real>)

  function ItemOf(r: AttendanceRecord): AttendanceItem
  {
    AttendanceItem(r.id, r.sessionId, r.studentId, r.timestamp, r.status, r.confidence)
  }

  /** `GET /api/attendance`: every record when no session id is given (an
      empty one counts as none), else only that session's records; each item
      copies its record's fields, in query order. */
  function ListAttendance(records: seq<AttendanceRecord>, sessionId: Option<Id>): (r: seq<AttendanceItem>)
    ensures sessionId.None? ==> |r| == |records| && forall i :: 0 <= i < |records| ==> r[i] == ItemOf(records[i])
    ensures sessionId.Some? ==> forall x :: x in r <==> exists k :: 0 <= k < |records| && records[k].sessionId == sessionId.value && x == ItemOf(records[k])
  {
    var rows := if sessionId.None? then records
                else Filter(records, (rec: AttendanceRecord) => rec.sessionId == sessionId.value);
    var r := Map(rows, ItemOf);
    forall x | sessionId.Some? && x in r
      ensures exists k :: 0 <= k < |records| && records[k].sessionId == sessionId.value && x == ItemOf(records[k])
    {
      var j :| 0 <= j < |r| && r[j] == x;
      assert rows[j] in rows;
      var k :| 0 <= k < |records| && records[k] == rows[j];
    }
    forall k | sessionId.Some? && 0 <= k < |records| && records[k].sessionId == sessionId.value
      ensures ItemOf(records[k]) in r
    {
      assert records[k] in rows;
      var j :| 0 <= j < |rows| && rows[j] == records[k];
      assert r[j] == ItemOf(records[k]);
    }
    r
  }

  /** Filtering by session is the same as listing everything and keeping
      the items of that session, in the same order. */
  lemma ListFilterAgrees(records: seq<AttendanceRecord>, sessionId: Id)
    ensures ListAttendance(records, Some(sessionId))
         == Filter(ListAttendance(records, None), (x: AttendanceItem) => x.sessionId == sessionId)
  {
    ItemsOfSelected(records, sessionId);
  }

  lemma {:induction false} ItemsOfSelected(records: seq<AttendanceRecord>, sessionId: Id)
    ensures Map(Filter(records, (rec: AttendanceRecord) => rec.sessionId == sessionId), ItemOf)
         == Filter(Map(records, ItemOf), (x: AttendanceItem) => x.sessionId == sessionId)
  {
    var p := (rec: AttendanceRecord) => rec.sessionId == sessionId;
    var q := (x: AttendanceItem) => x.sessionId == sessionId;
    if records != [] {
      var rest := records[1..];
      ItemsOfSelected(rest, sessionId);
      var head: seq<AttendanceRecord> := if p(records[0]) then [records[0]] else [];
      assert records == [records[0]] + rest;
      MapAppend([records[0]], rest, ItemOf);
      FilterAppend(Map([records[0]], ItemOf), Map(rest, ItemOf), q);
      MapAppend(head, Filter(rest, p), ItemOf);
      calc {
        Map(Filter(records, p), ItemOf);
        Map(head + Filter(rest, p), ItemOf);
        Map(head, ItemOf) + Map(Filter(rest, p), ItemOf);
        Filter(Map([records[0]], ItemOf), q) + Filter(Map(rest, ItemOf), q);
        Filter(Map([records[0]], ItemOf) + Map(rest, ItemOf), q);
        Filter(Map(records, ItemOf), q);
      }
    }
  }

  // ------------------------------------------------------------- export

  const HEADER: seq<string> := ["student_id", "timestamp", "status", "confidence"]

  /** One data row, in header order; a missing confidence is an empty cell. */
  function CsvRow(r: AttendanceRecord, iso: int -> string, show: real -> string): (row: seq<string>)
    ensures |row| == |HEADER|
  {
    [NatToString(r.studentId), iso(r.timestamp), r.status, if r.confidence.None? then "" else show(r.confidence.value)]
  }

  /** `GET /api/attendance/export`: the header row, then one row per record
      of that session in query order.  `iso` renders a timestamp and `show`
      a confidence value. */
  method ExportAttendance(records: seq<AttendanceRecord>, sessionId: Id, iso: int -> string, show: real -> string)
    returns (rows: seq<seq<string>>)
    ensures var sel := Filter(records, (rec: AttendanceRecord) => rec.sessionId == sessionId);
      && |rows| == |sel| + 1
      && rows[0] == HEADER
      && forall i :: 0 <= i < |sel| ==> rows[i + 1] == CsvRow(sel[i], iso, show)
  {
    var sel := Filter(records, (rec: AttendanceRecord) => rec.sessionId == sessionId);
    rows := [HEADER];
    var i := 0;
    while i < |sel|
      invariant 0 <= i <= |sel|
      invariant |rows| == i + 1 && rows[0] == HEADER
      invariant forall k :: 0 <= k < i ==> rows[k + 1] == CsvRow(sel[k], iso, show)
    {
      rows := rows + [CsvRow(sel[i], iso, show)];
      i := i + 1;
    }
  }

  /** Every exported data row belongs to the session and names its student
      by a decimal id that reads back as that student's id. */
  lemma ExportRowsReadBack(records: seq<AttendanceRecord>, sessionId: Id, iso: int -> string, show: real -> string, i: nat)
    requires i < |Filter(records, (rec: AttendanceRecord) => rec.sessionId == sessionId)|
    ensures var rec := Filter(records, (rec: AttendanceRecord) => rec.sessionId == sessionId)[i];
      && rec in records && rec.sessionId == sessionId
      && var cell := CsvRow(rec, iso, show)[0];
         (forall k :: 0 <= k < |cell| ==> '0' <= cell[k] <= '9') && DecimalValue(cell) == rec.studentId
  {
    var rec := Filter(records, (rec: AttendanceRecord) => rec.sessionId == sessionId)[i];
    NatToStringValue(rec.studentId);
  }
}
