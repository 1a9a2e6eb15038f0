/** pages/AdminDashboard.tsx: the student form's subject toggle, the
    student search, the sequential image upload against the mock store,
    the face-data badge and the simulated training progress.  Timers and
    alerts are left out; file contents stand for their data URLs. */
module AdminDashboard {
  import opened Common
  import opened ServicesApi

  /** The add-student form. */
  datatype StudentForm = StudentForm(
    name: string, enrollmentNo: string, email: string, branch: string, semester: int,
    enrolledSubjects: seq<string>)

  /** One call of `uploadStudentImage`. */
  datatype UploadCall = UploadCall(studentId: string, image: string)

  /** One step of the simulated training. */
  datatype TrainingStep = TrainingStep(pct: nat, msg: string)

  // ------------------------------------------------ form and search

  /** `toggleSubject`: only the form's subject list changes. */
  function ToggleSubject(form: StudentForm, code: string): (r: StudentForm)
    ensures r.name == form.name && r.enrollmentNo == form.enrollmentNo && r.email == form.email
    ensures r.branch == form.branch && r.semester == form.semester
    ensures code in r.enrolledSubjects <==> code !in form.enrolledSubjects
    ensures forall c :: c != code ==> (c in r.enrolledSubjects <==> c in form.enrolledSubjects)
  {
    ToggleMembership(form.enrolledSubjects, code);
    form.(enrolledSubjects := Toggle(form.enrolledSubjects, code))
  }

  /** Ticking an unticked subject and unticking it again restores the form,
      and a duplicate-free list stays duplicate-free. */
  lemma ToggleSubjectTwice(form: StudentForm, code: string)
    ensures code !in form.enrolledSubjects ==> ToggleSubject(ToggleSubject(form, code), code) == form
    ensures Distinct(form.enrolledSubjects) ==> Distinct(ToggleSubject(form, code).enrolledSubjects)
  {
    ToggleTwice(form.enrolledSubjects, code);
    if Distinct(form.enrolledSubjects) {
      ToggleDistinct(form.enrolledSubjects, code);
    }
  }

  /** A student the search keeps. */
  predicate Matches(s: Student, search: string)
  {
    Contains(Lower(s.name), Lower(search)) || Contains(Lower(s.enrollmentNo), Lower(search))
  }

  /** `filteredStudents`. */
  function FilteredStudents(students: seq<Student>, search: string): (r: seq<Student>)
    ensures |r| <= |students|
    ensures forall s :: s in r <==> s in students && Matches(s, search)
  {
    Filter(students, (s: Student) => Matches(s, search))
  }

  /** An empty search keeps every student, in order. */
  lemma EmptySearchKeepsAll(students: seq<Student>)
    ensures FilteredStudents(students, "") == students
  {
    forall i | 0 <= i < |students|
      ensures Matches(students[i], "")
    {
      ContainsEmpty(Lower(students[i].name));
    }
    FilterAll(students, (s: Student) => Matches(s, ""));
  }

  /** The search ignores the letter case of the query. */
  lemma SearchIgnoresCase(students: seq<Student>, search: string)
    ensures FilteredStudents(students, Lower(search)) == FilteredStudents(students, search)
  {
    LowerIdempotent(search);
    FilterAgree(students, (s: Student) => Matches(s, Lower(search)), (s: Student) => Matches(s, search));
  }

  // ------------------------------------------------ badge and training

  /** The face-data badge is green from five samples on. */
  predicate BadgeGreen(photoCount: int)
  {
    photoCount >= 5
  }

  /** Uploads never turn a green badge red, and a student one sample short
      turns green with the upload that lands on them. */
  lemma UploadKeepsBadge(students: seq<Student>, studentId: string, i: nat)
    requires i < |students|
    ensures |Uploaded(students, studentId)| == |students|
    ensures BadgeGreen(students[i].photoCount) ==> BadgeGreen(Uploaded(students, studentId)[i].photoCount)
    ensures students[i].photoCount == 4 && students[i].id == studentId
            && (forall j :: 0 <= j < i ==> students[j].id != studentId)
            ==> BadgeGreen(Uploaded(students, studentId)[i].photoCount)
  {
    UploadedCounts(students, studentId);
  }

  const TRAINING_STEPS: seq<TrainingStep> := [
    TrainingStep(10, "Loading dataset..."),
    TrainingStep(30, "Preprocessing images..."),
    TrainingStep(60, "Generating embeddings..."),
    TrainingStep(85, "Optimizing classifier..."),
    TrainingStep(100, "Model saved successfully!")]

  function Pct(step: TrainingStep): nat
  {
    step.pct
  }

  // ------------------------------------------------ repeated uploads

  /** The students after `n` uploads for the same id. */
  function UploadedTimes(students: seq<Student>, studentId: string, n: nat): seq<Student>
  {
    if n == 0 then students else Uploaded(UploadedTimes(students, studentId, n - 1), studentId)
  }

  /** Uploads keep the roster's length and ids. */
  lemma {:induction false} UploadedTimesIds(students: seq<Student>, studentId: string, n: nat)
    ensures |UploadedTimes(students, studentId, n)| == |students|
    ensures forall i :: 0 <= i < |students| ==> UploadedTimes(students, studentId, n)[i].id == students[i].id
  {
    if n > 0 {
      UploadedTimesIds(students, studentId, n - 1);
      UploadedCounts(UploadedTimes(students, studentId, n - 1), studentId);
    }
  }

  /** Uploads for an unknown id change nothing. */
  lemma {:induction false} UploadedTimesUnknown(students: seq<Student>, studentId: string, n: nat)
    requires forall i :: 0 <= i < |students| ==> students[i].id != studentId
    ensures UploadedTimes(students, studentId, n) == students
  {
    if n > 0 {
      UploadedTimesUnknown(students, studentId, n - 1);
      UploadedCounts(students, studentId);
    }
  }

  /** Uploads for a known id add one photo each to the total. */
  lemma {:induction false} UploadedTimesTotal(students: seq<Student>, studentId: string, n: nat, k: nat)
    requires k < |students| && students[k].id == studentId
    ensures TotalPhotos(UploadedTimes(students, studentId, n)) == TotalPhotos(students) + n
  {
    if n > 0 {
      var before := UploadedTimes(students, studentId, n - 1);
      UploadedTimesTotal(students, studentId, n - 1, k);
      UploadedTimesIds(students, studentId, n - 1);
      assert before[k].id == studentId;
      UploadedCounts(before, studentId);
    }
  }

  /** Uploads keep the roster's length and ids; with a known id each one
      adds a photo, with an unknown id nothing changes. */
  lemma UploadedTimesCounts(students: seq<Student>, studentId: string, n: nat)
    ensures |UploadedTimes(students, studentId, n)| == |students|
    ensures forall i :: 0 <= i < |students| ==> UploadedTimes(students, studentId, n)[i].id == students[i].id
    ensures (exists i :: 0 <= i < |students| && students[i].id == studentId) ==>
      TotalPhotos(UploadedTimes(students, studentId, n)) == TotalPhotos(students) + n
    ensures (forall i :: 0 <= i < |students| ==> students[i].id != studentId) ==>
      UploadedTimes(students, studentId, n) == students
  {
    UploadedTimesIds(students, studentId, n);
    if exists i :: 0 <= i < |students| && students[i].id == studentId {
      var k :| 0 <= k < |students| && students[k].id == studentId;
      UploadedTimesTotal(students, studentId, n, k);
    } else {
      UploadedTimesUnknown(students, studentId, n);
    }
  }

  // ------------------------------------------------ the page

  /** The page's state over the mock store it talks to. */
  class AdminScreen {
    const store: MockStore
    var students: seq<Student>
    var selectedStudentId: Option<string>
    var uploadImages: Option<seq<string>>
    var showUploadModal: bool
    var showTrainingModal: bool
    var trainingProgress: nat
    var trainingStatus: string

    constructor (store0: MockStore)
      ensures store == store0 && students == [] && selectedStudentId.None? && uploadImages.None?
      ensures !showUploadModal && !showTrainingModal && trainingProgress == 0 && trainingStatus == ""
    {
      store := store0;
      students := [];
      selectedStudentId := None;
      uploadImages := None;
      showUploadModal := false;
      showTrainingModal := false;
      trainingProgress := 0;
      trainingStatus := "";
    }

    /** `handleImageUpload`: without a selected student (or with an empty
        id) or without a file list nothing happens; otherwise one upload per
        file, in file order, then the modal closes and the list is
        refetched. */
    method HandleImageUpload() returns (calls: seq<UploadCall>)
      modifies this, store`students
      ensures (old(selectedStudentId).None? || old(selectedStudentId) == Some("") || old(uploadImages).None?)
              ==> calls == [] && unchanged(this) && unchanged(store)
      ensures !(old(selectedStudentId).None? || old(selectedStudentId) == Some("") || old(uploadImages).None?) ==>
        var id := old(selectedStudentId).value;
        var files := old(uploadImages).value;
        |calls| == |files|
        && (forall i :: 0 <= i < |files| ==> calls[i] == UploadCall(id, files[i]))
        && store.students == UploadedTimes(old(store.students), id, |files|)
        && students == store.students && !showUploadModal
        && selectedStudentId == old(selectedStudentId) && uploadImages == old(uploadImages)
        && showTrainingModal == old(showTrainingModal) && trainingProgress == old(trainingProgress)
        && trainingStatus == old(trainingStatus)
    {
      calls := [];
      if selectedStudentId.None? || selectedStudentId == Some("") || uploadImages.None? {
        return;
      }
      var id := selectedStudentId.value;
      var files := uploadImages.value;
      var i := 0;
      while i < |files|
        invariant 0 <= i <= |files|
        invariant |calls| == i
        invariant forall j :: 0 <= j < i ==> calls[j] == UploadCall(id, files[j])
        invariant store.students == UploadedTimes(old(store.students), id, i)
        invariant unchanged(this)
      {
        calls := calls + [UploadCall(id, files[i])];
        store.UploadStudentImage(id);
        i := i + 1;
      }
      showUploadModal := false;
      students := store.students;
    }

    /** `handleTrainModel`: the progress goes through the five steps in
        order and the modal closes at the end. */
    method HandleTrainModel() returns (reported: seq<nat>)
      modifies this
      ensures reported == [10, 30, 60, 85, 100]
      ensures trainingProgress == 100 && trainingStatus == "Model saved successfully!"
      ensures !showTrainingModal
      ensures students == old(students) && selectedStudentId == old(selectedStudentId)
      ensures uploadImages == old(uploadImages) && showUploadModal == old(showUploadModal)
    {
      showTrainingModal := true;
      trainingProgress := 0;
      trainingStatus := "Initializing...";
      reported := [];
      var steps := TRAINING_STEPS;
      var i := 0;
      while i < |steps|
        invariant 0 <= i <= |steps|
        invariant reported == Map(steps[..i], Pct)
        invariant i > 0 ==> trainingProgress == steps[i - 1].pct && trainingStatus == steps[i - 1].msg
        invariant students == old(students) && selectedStudentId == old(selectedStudentId)
        invariant uploadImages == old(uploadImages) && showUploadModal == old(showUploadModal)
      {
        trainingProgress := steps[i].pct;
        trainingStatus := steps[i].msg;
        MapAppend(steps[..i], [steps[i]], Pct);
        assert steps[..i + 1] == steps[..i] + [steps[i]];
        reported := reported + [steps[i].pct];
        i := i + 1;
      }
      assert steps[..i] == TRAINING_STEPS;
      showTrainingModal := false;
    }
  }
}
