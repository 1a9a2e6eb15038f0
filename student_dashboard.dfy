/** pages/StudentDashboard.tsx: the signed-in student's per-subject
    attendance figures, computed from the context's subjects, sessions and
    attendance records, and the totals, colours and standing derived from
    them. */
module StudentDashboard {
  import opened Common
  import opened AppContext

  /** An attendance record as the context keeps it after normalisation. */
  datatype ClientRecord = ClientRecord(id: string, sessionId: string, studentId: string, status: string)

  /** One entry of `stats`. */
  datatype SubjectStats = SubjectStats(
    subjectName: string, fullName: string, totalClasses: nat, attendedCount: nat, percentage: nat)

  /** The label of the detailed list. */
  datatype Standing = Good | Low

  /** The fill of a chart bar. */
  datatype BarColour = Green | Yellow | Red

  // ------------------------------------------------ per subject

  /** `subjects.filter(sub => currentUser.subjectIds?.includes(sub.id))`. */
  function MySubjects(user: ClientUser, subjects: seq<ClientSubject>): (r: seq<ClientSubject>)
    ensures |r| <= |subjects|
    ensures forall sub :: sub in r <==> sub in subjects && sub.id in user.subjectIds
  {
    Filter(subjects, (sub: ClientSubject) => sub.id in user.subjectIds)
  }

  /** A session that counts as a class of the subject: one of its sessions
      that is no longer flagged active. */
  predicate IsClassOf(s: ClientSession, subjectId: string)
  {
    s.subjectId == Some(subjectId) && !s.isActive
  }

  function ClassesOf(sessions: seq<ClientSession>, subjectId: string): seq<ClientSession>
  {
    Filter(sessions, (s: ClientSession) => IsClassOf(s, subjectId))
  }

  /** `classes.some(s => s.id === sessionId)`. */
  function HeldAs(classes: seq<ClientSession>, sessionId: string): (b: bool)
    ensures b <==> exists i :: 0 <= i < |classes| && classes[i].id == sessionId
  {
    if classes == [] then false else classes[0].id == sessionId || HeldAs(classes[1..], sessionId)
  }

  /** A record the student's `attendedCount` counts. */
  predicate Attends(r: ClientRecord, userId: string, classes: seq<ClientSession>)
  {
    r.studentId == userId && HeldAs(classes, r.sessionId)
  }

  function AttendedCount(records: seq<ClientRecord>, userId: string, classes: seq<ClientSession>): nat
  {
    |Filter(records, (r: ClientRecord) => Attends(r, userId, classes))|
  }

  function StatsFor(user: ClientUser, sessions: seq<ClientSession>, records: seq<ClientRecord>,
                    sub: ClientSubject): SubjectStats
  {
    var classes := ClassesOf(sessions, sub.id);
    var attended := AttendedCount(records, user.id, classes);
    SubjectStats(sub.code, sub.name, |classes|, attended, Percent(attended, |classes|))
  }

  /** `stats`: one entry per subject of the student, in subject-list order. */
  function Stats(user: ClientUser, subjects: seq<ClientSubject>, sessions: seq<ClientSession>,
                 records: seq<ClientRecord>): (r: seq<SubjectStats>)
    ensures |r| == |MySubjects(user, subjects)|
    ensures forall i :: 0 <= i < |r| ==>
      var sub := MySubjects(user, subjects)[i];
      && r[i].subjectName == sub.code
      && r[i].fullName == sub.name
      && r[i].totalClasses == |ClassesOf(sessions, sub.id)|
      && r[i].attendedCount == AttendedCount(records, user.id, ClassesOf(sessions, sub.id))
      && r[i].percentage == Percent(r[i].attendedCount, r[i].totalClasses)
      && (r[i].totalClasses == 0 ==> r[i].percentage == 0)
  {
    Map(MySubjects(user, subjects), (sub: ClientSubject) => StatsFor(user, sessions, records, sub))
  }

  // ------------------------------------------------ counting records

  /** The count grows by one for every qualifying record, repeated or not:
      it counts records, not distinct sessions. */
  lemma AttendedCountSnoc(records: seq<ClientRecord>, r: ClientRecord, userId: string,
                          classes: seq<ClientSession>)
    ensures AttendedCount(records + [r], userId, classes)
            == AttendedCount(records, userId, classes) + (if Attends(r, userId, classes) then 1 else 0)
  {
    FilterAppend(records, [r], (x: ClientRecord) => Attends(x, userId, classes));
  }

  /** A second copy of a counted record is counted again. */
  lemma DuplicateCountedTwice(records: seq<ClientRecord>, r: ClientRecord, userId: string,
                              classes: seq<ClientSession>)
    requires Attends(r, userId, classes)
    ensures AttendedCount(records + [r] + [r], userId, classes) == AttendedCount(records, userId, classes) + 2
  {
    AttendedCountSnoc(records, r, userId, classes);
    AttendedCountSnoc(records + [r], r, userId, classes);
  }

  /** The ledger's invariant as the client sees it: no student has two
      records for one session. */
  predicate OneRecordPerSession(records: seq<ClientRecord>)
  {
    forall i, j :: 0 <= i < j < |records| ==>
      records[i].studentId != records[j].studentId || records[i].sessionId != records[j].sessionId
  }

  /** The session ids of the counted records. */
  function AttendedIds(records: seq<ClientRecord>, userId: string, classes: seq<ClientSession>): set<string>
  {
    set r | r in records && Attends(r, userId, classes) :: r.sessionId
  }

  function ClassIds(classes: seq<ClientSession>): set<string>
  {
    set s | s in classes :: s.id
  }

  /** Dropping the first record keeps one record per session. */
  lemma OneRecordPerSessionTail(records: seq<ClientRecord>)
    requires records != [] && OneRecordPerSession(records)
    ensures OneRecordPerSession(records[1..])
  {
    var rest := records[1..];
    forall i, j | 0 <= i < j < |rest|
      ensures rest[i].studentId != rest[j].studentId || rest[i].sessionId != rest[j].sessionId
    {
      assert rest[i] == records[i + 1] && rest[j] == records[j + 1];
    }
  }

  /** The ids counted in a list are its first record's (when it counts) and
      those counted in the rest. */
  lemma AttendedIdsCons(records: seq<ClientRecord>, userId: string, classes: seq<ClientSession>)
    requires records != []
    ensures AttendedIds(records, userId, classes)
            == (if Attends(records[0], userId, classes) then {records[0].sessionId} else {})
               + AttendedIds(records[1..], userId, classes)
  {
    assert records == [records[0]] + records[1..];
  }

  /** With one record per session, the counted records have distinct session
      ids. */
  lemma {:induction false} AttendedCountIsIds(records: seq<ClientRecord>, userId: string,
                                              classes: seq<ClientSession>)
    requires OneRecordPerSession(records)
    ensures AttendedCount(records, userId, classes) == |AttendedIds(records, userId, classes)|
  {
    if records != [] {
      var rest := records[1..];
      OneRecordPerSessionTail(records);
      AttendedCountIsIds(rest, userId, classes);
      var r := records[0];
      assert records == [r] + rest;
      FilterAppend([r], rest, (x: ClientRecord) => Attends(x, userId, classes));
      AttendedIdsCons(records, userId, classes);
    }
  }

  /** A list's set of ids is no larger than the list. */
  lemma {:induction false} ClassIdsBound(classes: seq<ClientSession>)
    ensures |ClassIds(classes)| <= |classes|
  {
    if classes != [] {
      ClassIdsBound(classes[1..]);
      assert classes == [classes[0]] + classes[1..];
      assert ClassIds(classes) == {classes[0].id} + ClassIds(classes[1..]);
    }
  }

  lemma {:induction false} SubsetCard<T>(a: set<T>, b: set<T>)
    requires a <= b
    ensures |a| <= |b|
    decreases a
  {
    if a != {} {
      var x :| x in a;
      SubsetCard(a - {x}, b - {x});
    }
  }

  /** With one record per session a student never attends more classes than
      were held, so the percentage stays within 0..100. */
  lemma AttendedWithinClasses(records: seq<ClientRecord>, userId: string, classes: seq<ClientSession>)
    requires OneRecordPerSession(records)
    ensures AttendedCount(records, userId, classes) <= |classes|
    ensures Percent(AttendedCount(records, userId, classes), |classes|) <= 100
  {
    AttendedCountIsIds(records, userId, classes);
    assert AttendedIds(records, userId, classes) <= ClassIds(classes) by {
      forall id | id in AttendedIds(records, userId, classes)
        ensures id in ClassIds(classes)
      {
        var r :| r in records && Attends(r, userId, classes) && r.sessionId == id;
        var i :| 0 <= i < |classes| && classes[i].id == id;
        assert classes[i] in classes;
      }
    }
    SubsetCard(AttendedIds(records, userId, classes), ClassIds(classes));
    ClassIdsBound(classes);
  }

  // ------------------------------------------------ presentation

  /** The list's label: "Good" at 75% or more. */
  function StandingOf(percentage: nat): Standing
  {
    if percentage >= 75 then Good else Low
  }

  /** The bar's fill: green at 75% or more, yellow at 50% or more, red
      otherwise. */
  function ColourOf(percentage: nat): BarColour
  {
    if percentage >= 75 then Green else if percentage >= 50 then Yellow else Red
  }

  /** A bar is green exactly when the list says "Good", and red only below
      50%. */
  lemma ColourMatchesStanding(percentage: nat)
    ensures ColourOf(percentage) == Green <==> StandingOf(percentage) == Good
    ensures ColourOf(percentage) == Red <==> percentage < 50
    ensures ColourOf(percentage) == Yellow <==> 50 <= percentage < 75
  {
  }

  // ------------------------------------------------ totals

  /** `stats.reduce((acc, curr) => acc + curr.attendedCount, 0)`. */
  function SumAttended(stats: seq<SubjectStats>): nat
  {
    if stats == [] then 0 else SumAttended(stats[..|stats| - 1]) + stats[|stats| - 1].attendedCount
  }

  /** `stats.reduce((acc, curr) => acc + curr.totalClasses, 0)`. */
  function SumClasses(stats: seq<SubjectStats>): nat
  {
    if stats == [] then 0 else SumClasses(stats[..|stats| - 1]) + stats[|stats| - 1].totalClasses
  }

  /** Each figure is additive over the list of subjects. */
  lemma {:induction false} SumsAppend(a: seq<SubjectStats>, b: seq<SubjectStats>)
    ensures SumAttended(a + b) == SumAttended(a) + SumAttended(b)
    ensures SumClasses(a + b) == SumClasses(a) + SumClasses(b)
    decreases |b|
  {
    if b == [] {
      assert a + b == a;
    } else {
      var b' := b[..|b| - 1];
      assert (a + b)[..|a + b| - 1] == a + b';
      assert (a + b)[|a + b| - 1] == b[|b| - 1];
      SumsAppend(a, b');
    }
  }

  /** When no subject's count exceeds its classes, neither does the total. */
  lemma {:induction false} SumsOrdered(stats: seq<SubjectStats>)
    requires forall i :: 0 <= i < |stats| ==> stats[i].attendedCount <= stats[i].totalClasses
    ensures SumAttended(stats) <= SumClasses(stats)
  {
    if stats != [] {
      SumsOrdered(stats[..|stats| - 1]);
    }
  }

  /** With one record per session the summary cards never show more classes
      attended than held, and every subject's percentage is at most 100. */
  lemma TotalsOrdered(user: ClientUser, subjects: seq<ClientSubject>, sessions: seq<ClientSession>,
                      records: seq<ClientRecord>)
    requires OneRecordPerSession(records)
    ensures var st := Stats(user, subjects, sessions, records);
      SumAttended(st) <= SumClasses(st)
      && forall i :: 0 <= i < |st| ==> st[i].percentage <= 100
  {
    var st := Stats(user, subjects, sessions, records);
    var mine := MySubjects(user, subjects);
    forall i | 0 <= i < |st|
      ensures st[i].attendedCount <= st[i].totalClasses && st[i].percentage <= 100
    {
      AttendedWithinClasses(records, user.id, ClassesOf(sessions, mine[i].id));
    }
    SumsOrdered(st);
  }
}
