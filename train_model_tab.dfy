/** components/TrainModelTab.tsx: the students offered for training, the
    `handleTrain` sequence around the context's `trainModel`, and the
    trained / not-trained status read from the face database.  Timers are
    left out; file objects are their names. */
module TrainModelTab {
  import opened Common
  import opened AppContext

  const TRAINED_MESSAGE: string := "Model trained successfully with new images."

  /** `users.filter(u => u.role === UserRole.STUDENT)`. */
  function Students(users: seq<ClientUser>): (r: seq<ClientUser>)
    ensures |r| <= |users|
    ensures forall u :: u in r <==> u in users && u.role == STUDENT
  {
    Filter(users, (u: ClientUser) => u.role == STUDENT)
  }

  /** Adding a non-student changes nothing in the list; adding a student
      puts them last. */
  lemma StudentsSnoc(users: seq<ClientUser>, u: ClientUser)
    ensures Students(users + [u]) == Students(users) + (if u.role == STUDENT then [u] else [])
  {
    FilterAppend(users, [u], (x: ClientUser) => x.role == STUDENT);
  }

  /** `faceDatabase.find(d => d.studentId === id)?.imageCount || 0`. */
  function ImageCount(db: seq<FaceData>, studentId: string): int
  {
    match FirstIndex(db, (d: FaceData) => d.studentId == studentId)
    case None => 0
    case Some(k) => db[k].imageCount
  }

  /** The status badge: trained iff the student's count, a missing entry
      counting as 0, is positive. */
  predicate IsTrained(db: seq<FaceData>, student: ClientUser)
  {
    ImageCount(db, student.id) > 0
  }

  /** A training call that the server accepted images for leaves the chosen
      student's count raised by exactly that many, so they show as trained
      whenever their count was not negative. */
  lemma TrainingRaisesCount(users: seq<ClientUser>, db: seq<FaceData>, enrollmentNo: string,
                            accepted: Option<int>, u: nat)
    requires FirstWithEnrollment(users, u, enrollmentNo)
    requires UniqueBy(db, StudentKey)
    ensures ImageCount(Trained(users, db, enrollmentNo, accepted), users[u].id)
            == ImageCount(db, users[u].id) + OrZero(accepted)
    ensures ImageCount(db, users[u].id) >= 0 && OrZero(accepted) > 0 ==>
            IsTrained(Trained(users, db, enrollmentNo, accepted), users[u])
  {
    var id := users[u].id;
    var t := Trained(users, db, enrollmentNo, accepted);
    match FirstIndex(db, (d: FaceData) => d.studentId == id)
    case Some(k) =>
      TrainedGrows(users, db, enrollmentNo, accepted, u, k);
      assert t[k].studentId == id;
      assert forall j :: 0 <= j < k ==> t[j].studentId != id;
      var kt := FirstIndex(t, (d: FaceData) => d.studentId == id);
      assert kt == Some(k) by {
        assert kt.Some?;
        assert !(kt.value < k) && !(k < kt.value);
      }
    case None =>
      TrainedAppends(users, db, enrollmentNo, accepted, u);
      assert t[|db|].studentId == id;
      var kt := FirstIndex(t, (d: FaceData) => d.studentId == id);
      assert kt == Some(|db|) by {
        assert kt.Some?;
        assert forall j :: 0 <= j < |db| ==> t[j] == db[j];
        assert !(kt.value < |db|);
      }
  }

  /** The tab's state over the application context. */
  class TrainTab {
    const app: AppState
    var selectedStudent: string
    var selectedFiles: seq<string>
    var isTraining: bool
    var trainMessage: string

    constructor (app0: AppState)
      ensures app == app0 && selectedStudent == "" && selectedFiles == [] && !isTraining && trainMessage == ""
    {
      app := app0;
      selectedStudent := "";
      selectedFiles := [];
      isTraining := false;
      trainMessage := "";
    }

    /** The train button is disabled without a student or files, or while
        training. */
    predicate TrainDisabled()
      reads this
    {
      selectedStudent == "" || |selectedFiles| == 0 || isTraining
    }

    /** `handleTrain`, with the upload's outcome as `reply`: None when
        `trainModel` rethrows, Some(accepted) when the server answered.
        Without a student and files nothing happens; a rejected call leaves
        `isTraining` set; a resolved one updates the face database, clears
        the files and shows the message. */
    method HandleTrain(reply: Option<Option<int>>)
      modifies this, app`faceDatabase
      ensures old(selectedStudent) == "" || |old(selectedFiles)| == 0 ==> unchanged(this) && unchanged(app)
      ensures old(selectedStudent) != "" && |old(selectedFiles)| > 0 && reply.None? ==>
        isTraining && unchanged(app)
        && selectedStudent == old(selectedStudent) && selectedFiles == old(selectedFiles)
        && trainMessage == old(trainMessage)
      ensures old(selectedStudent) != "" && |old(selectedFiles)| > 0 && reply.Some? ==>
        app.faceDatabase == Trained(app.users, old(app.faceDatabase), old(selectedStudent), reply.value)
        && !isTraining && selectedFiles == [] && trainMessage == TRAINED_MESSAGE
        && selectedStudent == old(selectedStudent)
    {
      if selectedStudent != "" && |selectedFiles| > 0 {
        isTraining := true;
        if reply.None? {
          return;
        }
        app.TrainModel(selectedStudent, reply.value);
        isTraining := false;
        trainMessage := TRAINED_MESSAGE;
        selectedFiles := [];
      }
    }
  }
}
