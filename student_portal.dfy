/** pages/StudentPortal.tsx: the student's history, always loaded for one
    fixed enrolment number, and the present count and percentage shown
    above it. */
module StudentPortal {
  import opened Common
  import opened ServicesApi

  /** The enrolment number the portal asks for, whoever is signed in. */
  const PORTAL_ENROLLMENT: string := "CS2023001"

  /** `loadHistory`: the history fetched for the fixed enrolment number; a
      failed fetch (None from `server`) leaves the previous history. */
  function LoadHistory(previous: seq<AttendanceRecord>, useMock: bool,
                       server: string -> Option<seq<AttendanceRecord>>): (r: seq<AttendanceRecord>)
    ensures useMock ==> r == MOCK_HISTORY
    ensures !useMock && server(PORTAL_ENROLLMENT).Some? ==> r == server(PORTAL_ENROLLMENT).value
    ensures !useMock && server(PORTAL_ENROLLMENT).None? ==> r == previous
  {
    if useMock then MOCK_HISTORY
    else match server(PORTAL_ENROLLMENT)
      case Some(h) => h
      case None => previous
  }

  predicate IsPresent(h: AttendanceRecord)
  {
    h.status == "Present"
  }

  /** `history.filter(h => h.status === 'Present').length`. */
  function PresentCount(history: seq<AttendanceRecord>): (n: nat)
    ensures n <= |history|
  {
    |Filter(history, IsPresent)|
  }

  /** The count is additive: a record adds one exactly when it says
      "Present". */
  lemma PresentCountSnoc(history: seq<AttendanceRecord>, h: AttendanceRecord)
    ensures PresentCount(history + [h]) == PresentCount(history) + (if IsPresent(h) then 1 else 0)
  {
    FilterAppend(history, [h], IsPresent);
  }

  /** Everything present counts fully, nothing present counts zero. */
  lemma PresentCountExtremes(history: seq<AttendanceRecord>)
    ensures (forall i :: 0 <= i < |history| ==> IsPresent(history[i])) ==> PresentCount(history) == |history|
    ensures (forall i :: 0 <= i < |history| ==> !IsPresent(history[i])) ==> PresentCount(history) == 0
  {
    if forall i :: 0 <= i < |history| ==> IsPresent(history[i]) {
      FilterAll(history, IsPresent);
    }
    if forall i :: 0 <= i < |history| ==> !IsPresent(history[i]) {
      FilterNone(history, IsPresent);
    }
  }

  /** The percentage shown. */
  function Percentage(history: seq<AttendanceRecord>): (p: nat)
    ensures p <= 100
    ensures |history| == 0 ==> p == 0
    ensures |history| > 0 ==> p == RoundPercent(PresentCount(history), |history|)
  {
    Percent(PresentCount(history), |history|)
  }

  /** A full record shows 100%, an empty or all-absent one 0%. */
  lemma PercentageExtremes(history: seq<AttendanceRecord>)
    ensures |history| > 0 && (forall i :: 0 <= i < |history| ==> IsPresent(history[i])) ==> Percentage(history) == 100
    ensures (forall i :: 0 <= i < |history| ==> !IsPresent(history[i])) ==> Percentage(history) == 0
  {
    PresentCountExtremes(history);
  }

  /** A fixture check rather than a general property: the demo history
      (one present, one absent) shows 50%. */
  lemma MockHistoryPercentage()
    ensures PresentCount(MOCK_HISTORY) == 1 && Percentage(MOCK_HISTORY) == 50
  {
    PresentCountSnoc([MOCK_HISTORY[0]], MOCK_HISTORY[1]);
    PresentCountSnoc([], MOCK_HISTORY[0]);
    assert [MOCK_HISTORY[0]] + [MOCK_HISTORY[1]] == MOCK_HISTORY;
    assert [] + [MOCK_HISTORY[0]] == [MOCK_HISTORY[0]];
  }
}
