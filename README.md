# Face-recognition attendance: a Dafny model of its bookkeeping

This project models the attendance system. Class sessions are started and
ended by faculty. A kiosk captures faces, and an opaque face matcher turns
each face into a candidate student. The attendance ledger records at most
one mark per (session, student). Around this sit the enrolment, training
and statistics screens of the web client.

The model covers these parts:

- **Backends.** Two generations of the FastAPI backend are modelled.
  - `Models` is the UUID-keyed schema of `backend/models.py`. It is used by
    the session, kiosk, admin and attendance routers.
  - `Schema` is the integer-keyed schema of `backend/models/*.py`. It is
    used by `crud/*`, `recognition.py` and `students.py`.
  - Each schema is a class whose tables are `seq` fields. Every
    state-changing endpoint is a method whose `ensures` ties the new tables
    and the answer to a pure function of the old tables. The lemmas about
    that function state what the endpoint promises.
- **React client.** Covered are the application context (`AppContext`),
  the kiosk page, the multi-camera capture component, the mock API store,
  and the faculty, student, admin and training screens.
- **Prototype.** The single-file prototype in `src/main.jsx` is the
  `LegacyApp` module.

These things are parameters, because their behaviour is not visible here:

- **Face matcher.** The cosine similarity of `kiosk.py`, the InsightFace
  detector and the SVM classifier are function-typed parameters. The
  similarity gives `None` for a zero-norm centroid. The acceptance
  threshold is a parameter too.
- **Clock.** The clock is an integer `now`.
- **Password hashing.** `hash_password` is a function parameter.
- **Random ids.** Random ids and UUIDs are parameters or a counter
  (`nextId`).
- **Awaited requests.** The result of an awaited request is either a
  parameter of the handler or the argument of a separate "settled" method.

Falsy JavaScript strings (`undefined` or `""`) that the source tests with
`||` or `!x` are folded into `Option.None` wherever they only decide a
branch.

## Model

| member | source | states |
|---|---|---|
| SessionsRouter.StartSessionByCode | backend/routers/sessions.py:18-70 | the new session table and the answer are those of the start ladder, the new row carrying the required end time; the id counter moves only on success |
| SessionsRouter.StartOutcomes | backend/routers/sessions.py:22-70 | 404 exactly for an unknown subject code; 400 exactly when a faculty id is given and that faculty already has a session that is flagged and not past its end time, and never without a faculty id; otherwise exactly one new flagged row with the request's subject, faculty and times; failures write nothing |
| SessionsRouter.StartKeepsOnePerFaculty | backend/routers/sessions.py:29-58 | starting preserves "each faculty has at most one live session at now" |
| SessionsRouter.EndSession | backend/routers/sessions.py:74-82 | the new table and the answer are those of the end step |
| SessionsRouter.EndOutcomes | backend/routers/sessions.py:74-82 | 404 exactly for an unknown id; otherwise only that session's flag changes, to false |
| SessionsRouter.EndIdempotent | backend/routers/sessions.py:74-82 | ending the same session twice gives the same answer and the same table as ending it once |
| SessionsRouter.EndKeepsOnePerFaculty | backend/routers/sessions.py:74-82 | ending a session preserves the one-live-session-per-faculty invariant |
| SessionsRouter.OnePerFacultyLater | backend/routers/sessions.py:122-124 | liveness only expires as now grows, so the invariant at an earlier time holds later |
| SessionsRouter.ActiveSessions | backend/routers/sessions.py:85-111 | exactly the sessions live at now (flag set and no end time or one after now), in table order, each reported active |
| SessionsRouter.ListSessions | backend/routers/sessions.py:114-136 | every session in table order, with is_active equal to the derived liveness |
| SessionsRouter.ActiveIsListedActive | backend/routers/sessions.py:86-136 | the active list is exactly the listed sessions reported active, in the same order |
| SessionsCrud.SubjectByCode | backend/crud/sessions.py:12 | the first subject with that code, none exactly when no subject has it |
| SessionsCrud.CreateSession | backend/crud/sessions.py:10-30 | the new table and result are those of the create step; the id counter moves only on success |
| SessionsCrud.CreateOutcomes | backend/crud/sessions.py:10-30 | "Subject not found" for an unknown code, checked before "Faculty not found"; failures create nothing; a created session copies date, times and flag and links the subject and faculty |
| SessionsCrud.GetActiveSessions | backend/crud/sessions.py:37-38 | exactly the flagged sessions, in order, with no time check |
| KioskRouter.LeaderIsFirstMaximum | backend/routers/kiosk.py:52-70 | the running best is the first score strictly above -1 and every earlier score, no later score beats it, and there is none exactly when no score exceeds -1 |
| KioskRouter.PickBest | backend/routers/kiosk.py:52-70 | the candidate loop returns the leader of the student scores, skipping students without embeddings or with a zero-norm centroid |
| KioskRouter.KioskMarkAttendance | backend/routers/kiosk.py:24-122 | the answer and the new ledger are those of the single-probe ladder |
| KioskRouter.KioskLadder | backend/routers/kiosk.py:30-122 | 404 iff the session is unknown; 400 iff it is known and the image could not be saved; no_face iff the probe has no face; no_embeddings iff no student has a score above -1; a match appends exactly one PRESENT record for (session, student) with the score and the probe path; every other outcome leaves the ledger unchanged |
| KioskRouter.KioskBest | backend/routers/kiosk.py:52-70 | the candidate the student loop keeps is a position in the student list |
| KioskRouter.KioskReachesBest | backend/routers/kiosk.py:30-73 | no_embeddings iff session found, image saved, face found and no best student; every later answer needs all four |
| KioskRouter.KioskVerdict | backend/routers/kiosk.py:75-122 | given the best student and score: unresolved(score) iff below the threshold; not_enrolled(student) iff at or above it and not enrolled in the session's subject; already_marked(student) iff enrolled and marked; matched(student) iff enrolled and not marked |
| KioskRouter.BestAmongStudents | backend/routers/kiosk.py:52-70 | the chosen candidate is a student whose score is at least every student's score |
| KioskRouter.MatchedIsBestStudent | backend/routers/kiosk.py:52-116 | a matched student is a student user with stored embeddings and the best score among all students |
| KioskRouter.KioskKeepsOneRecordPerPair | backend/routers/kiosk.py:89-116 | the endpoint keeps at most one record per (session, student) |
| KioskRouter.FrameBest | backend/routers/kiosk.py:168-195 | a faceless frame has no candidate; otherwise the frame's candidate is the leader of that frame's student scores |
| KioskRouter.FrameTops | backend/routers/kiosk.py:145-204 | one best score per frame, in frame order |
| KioskRouter.KioskMarkAttendanceMulticam | backend/routers/kiosk.py:124-268 | the answer and the new marks are those of the multi-frame ladder, including the 500 for a frame that is not an image |
| KioskRouter.BestFrame | backend/routers/kiosk.py:143-204 | aborts iff some uploaded frame is not an image; otherwise the kept frame is the first with the highest per-frame best score, with the student that frame picked |
| KioskRouter.MultiLadder | backend/routers/kiosk.py:137-268 | the first rungs as iffs over the winner: 404 iff the session is unknown; 500 iff it is known and some frame is not an image; no_face iff the session is known, every frame is an image and there is no winner; unresolved iff the winner's user row is missing; not_enrolled iff the row exists and the winner is not enrolled |
| KioskRouter.MultiVerdict | backend/routers/kiosk.py:226-268 | the last rungs as iffs over an enrolled winner: already_marked whatever the score, then below-threshold, then matched; every answer about a student names the winner and, past the ledger, its score; only a match adds a mark, exactly one, and every other answer leaves the ledger as it was |
| KioskRouter.MultiNoFace | backend/routers/kiosk.py:145-207 | no_face iff the session is known, every frame is an image and no frame has a candidate |
| KioskRouter.ScanFrame | backend/routers/kiosk.py:152-194 | one frame's student loop returns that frame's best candidate, none for a faceless frame, and a candidate always scores above -1 |
| KioskRouter.LeaderSnoc | backend/routers/kiosk.py:196-200 | one more score replaces the running best exactly when it is present and strictly higher |
| KioskRouter.Faces | backend/routers/kiosk.py:146-156 | each frame's probe is the face its scan found, none for a faceless frame |
| KioskRouter.MultiWinningFrame | backend/routers/kiosk.py:196-204 | there is a winner iff some frame has a candidate; the winner is the candidate of a frame that beats every earlier frame strictly and is not beaten by any later one |
| KioskRouter.MultiWinner | backend/routers/kiosk.py:143-212 | the kept candidate is a position in the student list |
| KioskRouter.MultiKeepsMarksUnique | backend/routers/kiosk.py:226-268 | the multi-frame endpoint never marks a (session, student) pair twice |
| AttendanceCrud.CreateAttendanceRecord | backend/crud/attendance.py:7-19 | exactly one record is appended, with the given status and stamped with now |
| AttendanceCrud.CheckExistingAttendance | backend/crud/attendance.py:22-30 | a record of that student in that session, none exactly when there is none |
| AttendanceCrud.GetAttendanceByStudent | backend/crud/attendance.py:33-34 | exactly that student's records, in order |
| AttendanceCrud.UpdateAttendanceStatus | backend/crud/attendance.py:48-70 | the ledger becomes the upserted one; the returned record is the pair's and carries the new status |
| AttendanceCrud.UpsertCases | backend/crud/attendance.py:52-68 | on an existing pair only that record's status changes and nothing is added; on a missing pair exactly one record with the status is appended |
| AttendanceCrud.UpsertKeepsOneRecordPerPair | backend/crud/attendance.py:48-70 | the upsert preserves one record per (student, session), and the pair's record then has the new status |
| AttendanceCrud.CreateAfterCheckKeepsUnique | backend/crud/attendance.py:7-30 | a plain insert keeps the ledger unique exactly when the existence check found nothing |
| AttendanceRouter.ListAttendance | backend/routers/attendance.py:15-35 | all records without a session id, exactly that session's records with one; each item copies its record, in query order |
| AttendanceRouter.ListFilterAgrees | backend/routers/attendance.py:20-24 | filtering by session equals listing everything and keeping that session's items |
| AttendanceRouter.ItemsOfSelected | backend/routers/attendance.py:25-35 | the items are the records' fields, one per record, in order |
| AttendanceRouter.CsvRow | backend/routers/attendance.py:49-60 | a data row has the header's four columns, with an empty cell for a missing confidence |
| AttendanceRouter.ExportAttendance | backend/routers/attendance.py:38-68 | the header row first, then exactly one row per record of the session, in query order |
| AttendanceRouter.ExportRowsReadBack | backend/routers/attendance.py:49-60 | every data row belongs to the session, and its student column reads back as the record's student id |
| EmbeddingsCrud.SaveEmbedding | backend/crud/embeddings.py:7-12 | exactly one embedding row is appended, linked to the student |
| EmbeddingsCrud.OwnedBy | backend/crud/embeddings.py:20-23 | exactly the student's embeddings, in table order |
| EmbeddingsCrud.TrainingRowsExact | backend/crud/embeddings.py:15-25 | a row is a training row iff it is an embedding of a student with photo_count > 0 |
| EmbeddingsCrud.GetAllEmbeddingsForTraining | backend/crud/embeddings.py:15-25 | two lists of equal length; labels[i] owns embeddings[i], student-major, only students with photos |
| EmbeddingsCrud.AppendOwned | backend/crud/embeddings.py:21-23 | one student's embeddings are appended in order, each labelled with that student |
| EmbeddingsCrud.CollectRows | backend/crud/embeddings.py:20-23 | over students with photos, the two lists are exactly the training rows' embeddings and owners |
| EmbeddingsCrud.TrainingRowsSnoc | backend/crud/embeddings.py:20-23 | one more student contributes exactly their own embeddings at the end, and only if they have photos |
| EmbeddingsCrud.TrainingLabelsContribute | backend/crud/embeddings.py:19-23 | every collected row belongs to a student with photo_count > 0 |
| FaceDetection.PayloadOf | backend/face_service.py:37-43 | the text after the first comma when there is one, else the whole string |
| FaceDetection.PayloadOfHeader | backend/face_service.py:39-40 | a comma-free header plus "," plus any payload splits back to that payload; a comma-free payload is kept |
| FaceDetection.ClampInBounds | backend/face_service.py:64-66 | clamped boxes have x1, y1 >= 0, x2 <= w-1, y2 <= h-1, and in-bounds coordinates are unchanged |
| FaceDetection.DetectAndCrop | backend/face_service.py:48-75 | no crops iff no detected faces; otherwise one clamped crop per face, in detector order |
| FaceDetection.Largest | backend/face_service.py:89-92 | the index of the first crop of maximal area |
| FaceDetection.EmbeddingFromImage | backend/face_service.py:78-97 | nothing iff there is no crop; otherwise the first largest crop's embedding and its clamped box |
| RecognitionService.GenerateEmbedding | backend/services/face_service.py:23-47 | raises for no face, then for several faces, then for a face under 100 pixels wide or high; otherwise the single face's embedding |
| RecognitionService.AcceptedPhotoHasOneLargeFace | backend/services/face_service.py:33-47 | an accepted photo has exactly one face of at least 100 by 100 pixels, and its embedding is returned |
| RecognitionService.FaceRecognitionService.LoadModel | backend/services/face_service.py:14-21 | the detector is loaded; the classifier stays None when reading the stored one fails |
| RecognitionService.FaceRecognitionService.TrainClassifier | backend/services/face_service.py:49-54 | empty input raises and keeps the old classifier; otherwise the classifier is fitted on the data |
| RecognitionService.FaceRecognitionService.RecognizeFace | backend/services/face_service.py:56-60 | no prediction without a classifier, else the classifier's label |
| RecognitionRouter.RecognizeFace | backend/routers/recognition.py:35-95 | the answer and the new ledger are those of the recognition ladder |
| RecognitionRouter.RecognizeLadder | backend/routers/recognition.py:49-95 | empty file iff no bytes; an undecodable image gives invalid image; 500 iff the detector is not loaded; a rejected embedding fails with its own message; no classifier gives not recognized; success iff a stored student is predicted, a session is flagged and no record exists for the pair, and then exactly one Present record is added; failures write nothing |
| RecognitionRouter.RecognizeMessages | backend/routers/recognition.py:55-95 | invalid image, face not recognized, student not found, no active session and already marked are each answered exactly when their check is the first to fail |
| RecognitionRouter.RecognizeUsesFirstFlaggedSession | backend/routers/recognition.py:77-80 | the session used is the first flagged one, whatever its end time |
| RecognitionRouter.RecognizeKeepsOneRecordPerPair | backend/routers/recognition.py:83-95 | recognition keeps at most one record per (student, session) |
| RecognitionRouter.TrainFaceModel | backend/routers/recognition.py:21-32 | refuses with 400 iff there is no training data; otherwise fits the classifier on the parallel lists and reports their length as faces_encoded |
| StudentsRouter.ByEnrollment | backend/routers/students.py:27 | the first student with that number, none exactly when nobody has it |
| StudentsRouter.AddStudent | backend/routers/students.py:25-30 | the new table and answer are those of the add step, which refuses a taken enrollment number (400) and a taken e-mail (the unique column's 500) |
| StudentsRouter.AddKeepsEnrollmentUnique | backend/routers/students.py:26-30 | a taken number gives 400 and a taken e-mail the constraint error, neither writing; otherwise one student with the given fields and no photos is added, so numbers and e-mails stay unique |
| StudentsRouter.UploadStudentImage | backend/routers/students.py:33-85 | the new tables and answer are those of the upload ladder |
| StudentsRouter.UploadLadder | backend/routers/students.py:52-85 | each answer iff its checks: 404 unknown student, 400 empty file, 400 corrupt image, 500 when the detector is not loaded, 400 with the validation message, otherwise uploaded; none but the last writes; success saves one embedding, raises only that student's photo_count by 1 and returns it |
| StudentsRouter.UploadKeepsCountsMatching | backend/routers/students.py:67-79 | with unique ids, an upload keeps each photo_count equal to that student's stored embeddings |
| AdminRouter.CreateUser | backend/routers/admin.py:23-49 | the new table and answer are those of create_user as written, including the unique column's 500 for a taken "" or "null"; the id counter moves only on creation |
| AdminRouter.CreateUserOutcomes | backend/routers/admin.py:25-49 | a taken e-mail gives 400 first; a taken enrollment number that is not None, "" or "null" gives 400 next; a taken "" or "null" passes the check and is refused by the unique column with a 500; every refusal leaves the table as it was; a created user stores the hash of the password, never the password |
| AdminRouter.CreateUserRefusesSecondEmpty | backend/routers/admin.py:29-46 | as written, once a user holds enrollment number "", a second user with "" gets the 500 and nothing is stored, where storing the skipped value as none creates the user |
| AdminRouter.CreateUserKeepsUnique | backend/routers/admin.py:23-49 | as written, every creation keeps e-mails and enrollment numbers unique, because the database refuses what the check lets through |
| AdminRouter.CreateUserNormalizedKeepsUnique | backend/routers/admin.py:29-46 | storing a skipped enrollment number as none never reaches the database's refusal and keeps e-mails and enrollment numbers unique |
| AdminRouter.SubjectIdsOf | backend/routers/admin.py:56-59 | exactly the subject ids of that user's enrolment rows |
| AdminRouter.Page | backend/routers/admin.py:54 | OFFSET skip LIMIT limit: the users from position skip, at most limit of them |
| AdminRouter.ListUsers | backend/routers/admin.py:52-61 | one entry per user of the page, in order, each with that user's subject ids |
| AdminRouter.CountAccepted | backend/routers/admin.py:79-97 | the accepted count never exceeds the number of files |
| AdminRouter.AcceptedRows | backend/routers/admin.py:88-94 | every stored row is linked to the user and numbered consecutively |
| AdminRouter.AcceptedRowsCount | backend/routers/admin.py:79-97 | the accepted rows number exactly the accepted files, and each carries some accepted file's embedding and path |
| AdminRouter.AcceptedRowsInOrder | backend/routers/admin.py:79-97 | the k-th row holds the k-th file with a face, in upload order, with its embedding and path and the k-th id |
| AdminRouter.AcceptedFilterSnoc | backend/routers/admin.py:79-97 | one more upload joins the accepted files exactly when a face was found in it |
| AdminRouter.AcceptedRowsStep | backend/routers/admin.py:79-97 | one more file adds one row and one to the count iff it has a face, numbered after the rows before it |
| AdminRouter.TrainFace | backend/routers/admin.py:64-104 | 404 iff no user has the enrollment number; otherwise 500 iff some upload is not an image; neither writes; otherwise accepted + rejected = number of files, and exactly one embedding row per accepted file is appended for the first user with that number |
| AdminRouter.StoreAccepted | backend/routers/admin.py:77-97 | aborts iff some upload is not an image, leaving the table and counter as they were; otherwise accepted + rejected = number of files, exactly the accepted rows are appended and the id counter advances by their number |
| AdminRouter.EnrollSubject | backend/routers/admin.py:118-159 | the new table and answer are those of the enrol step |
| AdminRouter.EnrollOutcomes | backend/routers/admin.py:124-159 | 404 iff no user has the number, then iff no subject has the code; already_enrolled only for a pair with a row, writing nothing; enrolled only for a pair without one, adding exactly that row |
| AdminRouter.EnrollPair | backend/routers/admin.py:124-159 | with both found, the answer names the first user with that number and the first subject with that code; already_enrolled iff that pair has a row, enrolled otherwise |
| AdminRouter.EnrollIdempotent | backend/routers/admin.py:138-159 | enrolling twice equals enrolling once, the repeat reporting already_enrolled |
| AdminRouter.EnrollKeepsPairsUnique | backend/routers/admin.py:138-159 | enrolment keeps one row per (user, subject) |
| AppContext.Coalesce | context/AppContext.tsx:116-123 | a ?? b: the first value when present, else the second |
| AppContext.NormalizeSession | context/AppContext.tsx:116-123 | snake_case wins over camelCase; isActive defaults to true, facultyId and endTime to none |
| AppContext.NormalizeRoundTrip | context/AppContext.tsx:116-123 | normalising the snake_case or camelCase rendering of a session gives it back |
| AppContext.NormalizeDefaultsActive | context/AppContext.tsx:122 | a server session with no flag at all is active |
| AppContext.GetActiveSession | context/AppContext.tsx:468-482 | the first session in list order that is flagged, matches a non-empty faculty id, and has no end time or one after now; none iff no session qualifies |
| AppContext.GetActiveSessionFacultyNarrows | context/AppContext.tsx:473 | an empty faculty id does not filter, and a faculty's active session implies an unfiltered one |
| AppContext.ResolveSubjectCode | context/AppContext.tsx:351-357 | the code of the subject with that id, else of the subject with that code, else the argument |
| AppContext.SecondSegment | context/AppContext.tsx:391 | split(",")[1]: the text between the first and the second comma, none without a comma |
| AppContext.StripDataUrl | context/AppContext.tsx:390-392 | a string starting with "data:" becomes its second comma segment; any other string is kept |
| AppContext.StripDataUrlPayload | context/AppContext.tsx:390-392 | for a comma-free header and payload, the client sends exactly the payload, which is also what the server decodes |
| AppContext.RefetchIffRecorded | context/AppContext.tsx:403-405 | the list is refetched iff the status is "matched", which is iff the endpoint wrote a record; the same for the multi-frame call |
| AppContext.FrameFileNameInjective | context/AppContext.tsx:436 | cam{c+1}_frame{f+1}.jpg determines c and f, so distinct frames get distinct names |
| AppContext.AppState.TrainModel | context/AppContext.tsx:283-326 | the face database becomes the trained one |
| AppContext.TrainedUnknown | context/AppContext.tsx:294-298 | an unknown enrollment number leaves the face database unchanged |
| AppContext.TrainedGrows | context/AppContext.tsx:300-311 | an existing entry grows by accepted (missing counts 0), and no other entry changes |
| AppContext.TrainedAppends | context/AppContext.tsx:312-319 | a student without an entry gets one appended, holding accepted |
| AppContext.TrainedKeepsOneEntryPerStudent | context/AppContext.tsx:294-319 | the face database keeps one entry per student |
| AppContext.PlannedCodes | context/AppContext.tsx:237-250 | each planned code is some subject's code, at most one per selected id |
| AppContext.PlannedCodesExact | context/AppContext.tsx:237-250 | each planned code is the code of a subject whose id was selected |
| AppContext.PlannedCodesComplete | context/AppContext.tsx:245-249 | every selected id naming a known subject contributes the code of the first subject with that id |
| AppContext.EnrollmentCalls | context/AppContext.tsx:237-250 | the calls made are a prefix of one enrolment per selected id that names a subject, in order; every call but the last was accepted; the loop fails iff the last call was refused, and otherwise it made every planned call; none for an ADMIN |
| AppContext.PairsStep | context/AppContext.tsx:245-249 | one more selected id adds one enrolment call if it names a subject and none otherwise |
| AppContext.PairsPrefix | context/AppContext.tsx:245-249 | a prefix of the planned codes gives a prefix of the planned calls |
| AppContext.PlannedCodesPrefix | context/AppContext.tsx:245-249 | the codes planned for a prefix of the selection are a prefix of those planned for the whole selection |
| AppContext.AcceptedSnoc | context/AppContext.tsx:245-249 | a call after an accepted one keeps every earlier call accepted, and it fails exactly when the server refuses it |
| MultiCamCapture.Cameras | components/MultiCamCapture.tsx:27-28 | exactly the "videoinput" devices, in enumeration order |
| MultiCamCapture.CameraCount | components/MultiCamCapture.tsx:31 | min(2, cameras): at most 2, at most the cameras found, 0 iff none |
| MultiCamCapture.PresentCameras | components/MultiCamCapture.tsx:77-81 | the used slots that hold a video element, in order |
| MultiCamCapture.CapturedShape | components/MultiCamCapture.tsx:77-90 | camera-major frames: frames 2k and 2k+1 come from the k-th present camera with frame index 0 then 1 |
| MultiCamCapture.CapturedBounds | components/MultiCamCapture.tsx:77-92 | at most four frames; none exactly when no used slot holds a video |
| MultiCamCapture.CapturedLength | components/MultiCamCapture.tsx:77-90 | two frames per present camera, no more and no fewer |
| MultiCamCapture.CaptureState.DevicesEnumerated | components/MultiCamCapture.tsx:24-35 | the camera list and count after enumeration |
| MultiCamCapture.CaptureState.StreamRequests | components/MultiCamCapture.tsx:42-50 | streams are requested for the first cameraCount devices only, device i to slot i |
| MultiCamCapture.CaptureState.AttachVideo | components/MultiCamCapture.tsx:132-134 | the slot's ref receives its video element and nothing else changes |
| MultiCamCapture.CaptureState.HandleCapture | components/MultiCamCapture.tsx:68-93 | onCapture is called with the camera-major frames, and never with an empty list |
| MultiCamCapture.CaptureAfterDetection | components/MultiCamCapture.tsx:68-93 | after detection a capture sends at most four frames, never none, only from slots below the count |
| KioskPage.OrElse | pages/Kiosk.tsx:60-68 | s \|\| fallback: the string when non-empty, else the fallback |
| KioskPage.ResultOfCases | pages/Kiosk.tsx:57-71 | success shows (true, student or "Attendance Marked"), failure (false, message or "Not Recognized"), a throw (false, "Connection Error"); a shown message is never empty |
| KioskPage.LiveKioskMessages | pages/Kiosk.tsx:57-71 | against a server that answers, "Connection Error" appears only if the server sent it; a server error shows the API's connection message; a recognised student is shown by the server's label |
| KioskPage.DeployedLiveKiosk | services/api.ts:205-210 | against the backend as shipped every live capture fails: no student is shown and the message is the API's "Server Connection Error" |
| KioskPage.BeginCaptureCases | pages/Kiosk.tsx:42-56 | no-op while processing or before the refs exist; otherwise processing is set, the result cleared, and a submission made iff a 2D context exists |
| KioskPage.NullContextBlocksCaptures | pages/Kiosk.tsx:49-75 | without a 2D context processing stays set, so later captures submit nothing |
| KioskPage.SettleReadies | pages/Kiosk.tsx:57-74 | a settled submission clears processing and shows that submission's result |
| KioskPage.StartCameraCases | pages/Kiosk.tsx:20-32 | the error is set iff access was refused; the stream turns active only with access and a video element |
| KioskPage.StopThenStart | pages/Kiosk.tsx:20-40 | stopping deactivates exactly when a stream is attached; restarting restores it |
| KioskPage.KioskScreen.StartCameraSettled | pages/Kiosk.tsx:20-32 | the screen becomes the started one |
| KioskPage.KioskScreen.StopCamera | pages/Kiosk.tsx:34-40 | the screen becomes the stopped one |
| KioskPage.KioskScreen.HandleCapture | pages/Kiosk.tsx:42-56 | the begin step, submitting to session "101" |
| KioskPage.KioskScreen.CaptureSettled | pages/Kiosk.tsx:57-74 | the settle step |
| ServicesApi.Login | services/api.ts:48-66 | ADMIN iff the lower-cased name contains "admin"; FACULTY iff not that but "faculty"; otherwise the demo student |
| ServicesApi.LoginIgnoresCase | services/api.ts:52 | login gives the same user for a name and its lower-case form |
| ServicesApi.StudentsBySubject | services/api.ts:94-97 | exactly the students enrolled in the code, in order |
| ServicesApi.UploadedCounts | services/api.ts:113-119 | an upload changes only the first student with that id, only its photo count, by one; the total grows by one iff the id is known |
| ServicesApi.NewSessionFields | services/api.ts:157-173 | a new session is active with 0 present, counts the students of its code, and is named after the first subject with that code or "Unknown" |
| ServicesApi.MockStore.CreateSubject | services/api.ts:77-86 | exactly one subject is appended |
| ServicesApi.MockStore.AddStudent | services/api.ts:102-108 | exactly one student is appended, carrying every field of the form (number, name, e-mail, semester, branch, subjects), the given id, 0 photos and "Active" |
| ServicesApi.MockStore.UploadStudentImage | services/api.ts:113-119 | the students become the uploaded list |
| ServicesApi.MockStore.CreateSession | services/api.ts:157-173 | the new session is put at the front of the list |
| ServicesApi.FromServer | services/api.ts:206-211 | a server error (500) is a thrown request, every other answer is delivered |
| ServicesApi.MarkAttendance | services/api.ts:191-211 | a thrown request becomes failure with the connection message; a delivered body is returned |
| ServicesApi.AttendanceHistory | services/api.ts:179-183 | the mock returns the two fixed records for any number; the live client returns the server's answer for that number |
| LegacyApp.PadStart2 | src/main.jsx:368-373 | at least two characters, reading back as the number |
| LegacyApp.SplitSeconds | src/main.jsx:368-373 | hours*3600 + minutes*60 + seconds is the input, with minutes and seconds below 60 |
| LegacyApp.SplitSecondsUnique | src/main.jsx:368-373 | that split is the only one with minutes and seconds below 60 |
| LegacyApp.FormatTimeLength | src/main.jsx:368-373 | below 100 hours the display has exactly 8 characters, never fewer |
| LegacyApp.FormatTimeInjective | src/main.jsx:368-373 | distinct elapsed times display differently |
| LegacyApp.MockLogin | src/main.jsx:69-81 | teacher/pass and student/pass log in as their fixtures, "kiosk" logs in with any password, and anything else is refused with "Invalid credentials." |
| LegacyApp.SessionDetailRows | src/main.jsx:538-554 | one row per roster student, in order; present iff a present entry has the same enrollment number; the time is the first such entry's, else "N/A" |
| LegacyApp.SummaryLastWins | src/main.jsx:607-615 | the keys are the session dates, and each holds the last session on that date |
| LegacyApp.SummaryByDate | src/main.jsx:604-615 | the reduce loop builds the summary of the selected class's sessions |
| LegacyApp.InsertDescending | src/main.jsx:665 | inserting keeps a newest-first list strictly descending with one copy per date |
| LegacyApp.NewestFirst | src/main.jsx:665 | the distinct dates, strictly descending |
| LegacyApp.DescendingUnique | src/main.jsx:665 | two strictly descending lists with the same dates are equal, so any descending sort of the keys is NewestFirst |
| LegacyApp.SummaryKeys | src/main.jsx:607-615 | the summary's keys are exactly its sessions' dates |
| LegacyApp.ClassRecordRowsDates | src/main.jsx:665-667 | one row per date of the selected class, newest first |
| LegacyApp.ClassRecordRowsValues | src/main.jsx:665-673 | each row carries the last session on its date, with absent = total - present |
| LegacyApp.NewClassKeepsIds | src/main.jsx:445 | appending C{n+1} keeps the id scheme |
| LegacyApp.GeneratedIdNotFixture | src/main.jsx:445 | a generated id (C followed by the list length plus one) is never one of the fixture ids C001-C003 |
| LegacyApp.GeneratedIdsDistinct | src/main.jsx:445 | ids generated at different lengths differ |
| LegacyApp.CatalogIdsDistinct | src/main.jsx:445 | under that scheme no two classes share an id |
| LegacyApp.CreateClassForm.Submit | src/main.jsx:436-454 | refused unless all four fields are filled; otherwise exactly one class C{n+1} is appended and the form is cleared |
| LegacyApp.TeacherDashboard.StartSession | src/main.jsx:712-721 | the dashboard shows a live session "S{now}" of that class with 0 present |
| LegacyApp.TeacherDashboard.EndSession | src/main.jsx:723-727 | no live session remains |
| LegacyApp.RecognitionRounds | src/main.jsx:898-947 | a capture is refused, page unchanged, unless the camera is ready and a class chosen; every attempt that is not refused ends ready and not loading |
| LegacyApp.FirstCaptureStopsCamera | src/main.jsx:884-895 | a capture that reaches the recogniser stops the camera through the effect's cleanup and no later round restarts it; a refused capture leaves it as it was |
| LegacyApp.ReadyForNextCapture | src/main.jsx:898-947 | after a completed round the next capture is accepted |
| LegacyApp.SettleNamesOnlyOnSuccess | src/main.jsx:935-943 | the badge names a student only on success and shows the reply's message |
| LegacyApp.KioskPage.ChooseClass | src/main.jsx:860-896 | the page becomes the class-chosen one: another class stops the current stream, and the first choice starts the camera |
| LegacyApp.KioskPage.CaptureAndRecognize | src/main.jsx:898-930 | the begin step of a recognition round, including the camera stop the status change causes |
| LegacyApp.KioskPage.RecognitionReplied | src/main.jsx:932-947 | the settle step of a recognition round |
| FacultyDashboard.AnyPresent | pages/FacultyDashboard.tsx:59 | true iff some record of that enrolment number says "Present" |
| FacultyDashboard.MergeEntries | pages/FacultyDashboard.tsx:47-64 | one entry per enrolled student, in order, present iff a matching "Present" record exists |
| FacultyDashboard.ToggledEntries | pages/FacultyDashboard.tsx:71-73 | only that student's entries change, only in isPresent |
| FacultyDashboard.ToggledBack | pages/FacultyDashboard.tsx:66-85 | flipping a student away from the shown value and back restores the roster |
| FacultyDashboard.StatusText | pages/FacultyDashboard.tsx:76-81 | "Present" iff the new value is present, else "Absent" |
| FacultyDashboard.MySubjectsMembers | pages/FacultyDashboard.tsx:88 | no assigned list gives none; otherwise exactly the catalogue subjects whose code is assigned |
| FacultyDashboard.SessionPercent | pages/FacultyDashboard.tsx:193 | 0 with no students, otherwise the rounded percentage, at most 100 when present <= total |
| FacultyDashboard.ChartDataEntries | pages/FacultyDashboard.tsx:91-95 | one bar per session, in order, with its code and counts |
| FacultyDashboard.FacultyScreen.HandleCreateSession | pages/FacultyDashboard.tsx:35-45 | nothing without a picked subject; otherwise one session is created, the picker cleared, the list refetched |
| FacultyDashboard.FacultyScreen.OpenAttendanceModal | pages/FacultyDashboard.tsx:47-64 | the modal shows the merged roster of the session |
| FacultyDashboard.FacultyScreen.ToggleAttendance | pages/FacultyDashboard.tsx:66-85 | nothing without a selected session; otherwise the roster is toggled and one update with the new status is sent |
| StudentDashboard.MySubjects | pages/StudentDashboard.tsx:12 | exactly the subjects whose id is in the student's list, in order |
| StudentDashboard.HeldAs | pages/StudentDashboard.tsx:20-23 | true iff some held class has that session id |
| StudentDashboard.Stats | pages/StudentDashboard.tsx:15-34 | one entry per subject of the student, in order, with its code and name, its held classes, the student's records in them, and their rounded share (0% when none were held) |
| StudentDashboard.AttendedCountSnoc | pages/StudentDashboard.tsx:20-23 | each qualifying record adds one, repeated or not |
| StudentDashboard.DuplicateCountedTwice | pages/StudentDashboard.tsx:20-23 | a duplicated record is counted twice |
| StudentDashboard.AttendedCountIsIds | pages/StudentDashboard.tsx:20-23 | with one record per session, the count is the number of distinct attended ids |
| StudentDashboard.OneRecordPerSessionTail | pages/StudentDashboard.tsx:20-23 | the one-record-per-session condition holds for every suffix of the records |
| StudentDashboard.AttendedIdsCons | pages/StudentDashboard.tsx:20-23 | the attended ids are the first record's (when it counts) together with the rest's |
| StudentDashboard.AttendedWithinClasses | pages/StudentDashboard.tsx:17-25 | with one record per session, attended <= held and the percentage <= 100 |
| StudentDashboard.ColourMatchesStanding | pages/StudentDashboard.tsx:75-133 | the bar colour (line 75) is green iff the table badge (line 133) says "Good" (>= 75), red only below 50 |
| StudentDashboard.SumsAppend | pages/StudentDashboard.tsx:92-98 | both totals are additive over the subject list |
| StudentDashboard.SumsOrdered | pages/StudentDashboard.tsx:92-98 | if no subject's attended count exceeds its classes, neither does the total |
| StudentDashboard.TotalsOrdered | pages/StudentDashboard.tsx:15-98 | with one record per session, total attended <= total held and every percentage <= 100 |
| StudentPortal.LoadHistory | pages/StudentPortal.tsx:17-27 | the history for "CS2023001" whoever signs in; a failed fetch keeps the previous history |
| StudentPortal.PresentCount | pages/StudentPortal.tsx:29 | the present count is at most the history's length |
| StudentPortal.PresentCountSnoc | pages/StudentPortal.tsx:29 | a record adds one iff it says "Present" |
| StudentPortal.PresentCountExtremes | pages/StudentPortal.tsx:29 | all present counts fully; none present counts 0 |
| StudentPortal.Percentage | pages/StudentPortal.tsx:30 | 0 for an empty history, else the rounded share; always <= 100 |
| StudentPortal.PercentageExtremes | pages/StudentPortal.tsx:30 | an all-present history shows 100, an all-absent one 0 |
| StudentPortal.MockHistoryPercentage | services/api.ts:37-40 | fixture check, not a general property: the demo history counts 1 present and shows 50% |
| AdminDashboard.ToggleSubject | pages/AdminDashboard.tsx:123-131 | only the subject list changes: the code's membership flips and no other code's does |
| AdminDashboard.ToggleSubjectTwice | pages/AdminDashboard.tsx:123-131 | toggling an absent code twice restores the form; a duplicate-free list stays duplicate-free |
| AdminDashboard.FilteredStudents | pages/AdminDashboard.tsx:133-136 | exactly the students whose name or enrolment number contains the search, case-insensitively |
| AdminDashboard.EmptySearchKeepsAll | pages/AdminDashboard.tsx:133-136 | an empty search keeps every student, in order |
| AdminDashboard.SearchIgnoresCase | pages/AdminDashboard.tsx:133-136 | the search gives the same result for a query and its lower-case form |
| AdminDashboard.UploadKeepsBadge | pages/AdminDashboard.tsx:257 | uploads never turn a green badge (>= 5 samples) red; a student at 4 turns green on their upload |
| AdminDashboard.UploadedTimesCounts | pages/AdminDashboard.tsx:99-121 | n uploads keep length and ids; a known id gains n photos in total; an unknown id changes nothing |
| AdminDashboard.UploadedTimesIds | pages/AdminDashboard.tsx:99-121 | repeated uploads keep the list's length and ids |
| AdminDashboard.UploadedTimesUnknown | pages/AdminDashboard.tsx:99-121 | uploads for an id no student has change nothing |
| AdminDashboard.UploadedTimesTotal | pages/AdminDashboard.tsx:99-121 | n uploads raise the known student's photo count by n |
| AdminDashboard.AdminScreen.HandleImageUpload | pages/AdminDashboard.tsx:99-121 | without a student or files nothing happens; otherwise one upload per file in file order, the modal closed, the list refetched |
| AdminDashboard.AdminScreen.HandleTrainModel | pages/AdminDashboard.tsx:50-73 | progress goes through 10, 30, 60, 85, 100, ends at "Model saved successfully!", and the modal closes |
| AdminFaculty.ToggleSubject | pages/AdminFaculty.tsx:46-54 | name and e-mail are kept; the code's membership flips; an absent code is appended |
| AdminFaculty.ToggleSubjectTwice | pages/AdminFaculty.tsx:46-54 | toggling an absent code twice restores the form; a duplicate-free list stays duplicate-free |
| AdminFaculty.SubjectName | pages/AdminFaculty.tsx:56 | the code itself when no catalogue subject has it, else the name of a subject with that code |
| AdminFaculty.CatalogueLabels | pages/AdminFaculty.tsx:56 | every catalogue code is labelled with its own subject's name |
| AdminFaculty.NewFaculty | services/api.ts:140-149 | the added user is a FACULTY with the form's name, e-mail and subjects |
| AdminFaculty.AfterAdd | pages/AdminFaculty.tsx:34-44 | a successful add resets the form and closes the modal; a failed one keeps both |
| AdminFaculty.ResetThenToggle | pages/AdminFaculty.tsx:34-54 | after a successful add, the next toggle gives a list of just that code |
| ManageUsersTab.ToggleSubject | components/ManageUsersTab.tsx:29-40 | only the subject ids change: the id's membership flips |
| ManageUsersTab.ToggleSubjectTwice | components/ManageUsersTab.tsx:29-40 | toggling an absent id twice restores the form; a duplicate-free list stays duplicate-free |
| ManageUsersTab.HandleAddUser | components/ManageUsersTab.tsx:42-58 | submits iff name, e-mail and password are non-empty; it then resets the form (semester 1) and shows the message; otherwise nothing changes |
| ManageUsersTab.ResetDiffersInSemester | components/ManageUsersTab.tsx:16-54 | the reset form is the initial one with semester 1, and neither can be submitted |
| ManageUsersTab.FilteredUsers | components/ManageUsersTab.tsx:61-72 | exactly the users whose name, e-mail or enrolment number, missing ones read as "", contains the search |
| ManageUsersTab.EmptySearchKeepsAll | components/ManageUsersTab.tsx:61-72 | an empty search keeps every user, in order |
| ManageUsersTab.MissingFieldsMatchOnlyEmpty | components/ManageUsersTab.tsx:63-65 | a user with all three fields missing matches iff the search is empty |
| TrainModelTab.Students | components/TrainModelTab.tsx:9 | exactly the STUDENT users |
| TrainModelTab.StudentsSnoc | components/TrainModelTab.tsx:9 | adding a non-student leaves the list unchanged; adding a student puts them last |
| TrainModelTab.TrainingRaisesCount | components/TrainModelTab.tsx:132-135 | after training, the student's shown count is the old count plus the accepted images, so they show as trained |
| TrainModelTab.TrainTab.HandleTrain | components/TrainModelTab.tsx:22-31 | nothing without a student and files; a rejected call leaves isTraining set; a resolved one trains the face database, clears the files and shows the message |
| Common.RoundPercent | pages/StudentPortal.tsx:30 | Math.round(100a/t): the integer nearest 100a/t, halves rounded up |
| Common.RoundPercentBounded | pages/StudentPortal.tsx:30 | a part no larger than the whole rounds to at most 100 |
| Common.Percent | pages/StudentDashboard.tsx:25 | 0 for an empty total; at most 100 for a part of the whole; 100 for the whole; 0 for nothing |
| Common.TruncToInt | backend/face_service.py:62 | int(x) truncates toward zero: the result is within one of x, on the side of 0 |
| Common.ToggleTwice | pages/AdminDashboard.tsx:123-131 | toggling an absent value twice restores the list; toggling a present one twice moves it to the end |

## Left out

- Camera, canvas, `FileReader`, `dataURLtoBlob` and base64 decoding are outside the model. Their results (a frame, "decoded or not", a context or none) are parameters. In `AdminRouter.TrainFace` and `KioskRouter.KioskMarkAttendanceMulticam` the decoder's failure is not caught. There an upload that is not an image is its own case (`Scan`, `FrameScan`), and it aborts the request with a 500.
- The face detector, the embedding network and cosine similarity are function parameters. Of the SVM only the prediction is a parameter. Floating-point arithmetic is real arithmetic, and `Math.round` is the exact integer expression in `Common.RoundPercent`.
- `RecognitionService.FaceRecognitionService.TrainClassifier` assumes the SVM's `fit` always succeeds on non-empty data. In the source the new classifier is assigned before `fit` runs. A fit that raises, for example on data from a single student, leaves an unfitted classifier in place, and every later recognition then fails with a 500. The model does not capture that.
- `RecognitionRouter.TrainFaceModel` inherits the same assumption. A failing fit would answer 500, and the model answers success.
- Password hashing is a parameter, and bcrypt itself is not modelled.
- JWT handling, `backend/auth.py` and the routing pages are not part of this model.
- Dates and times are integers. ISO formatting and CSV rendering of a timestamp or a confidence are parameters of `AttendanceRouter.ExportAttendance`. CSV quoting is not modelled.
- Timers, `alert`, toasts, `console` logging and the `setTimeout` that clears a message are not modelled.
- The interleaving of concurrent awaits is not modelled. Each handler runs to its await, and the awaited result is then a parameter.
- `toLowerCase` is ASCII-only, in `Common.LowerChar`.
- `get_attendance_by_session`, `create_subject`, `SubjectsTab`, `handleAddStudent`, `handleAddSubject` and the faculty list pages are not modelled: none of them is part of the bookkeeping modelled here.
- `AdminDashboard.AdminScreen.HandleImageUpload` works against the mock store only. The live API's failure path, where the loop stops at the first rejected upload, is not modelled.
- `AdminFaculty.NewFaculty` gives the faculty that `addFaculty` appends. The push into the mock faculty list is not modelled as state.
- `LegacyApp.SplitSeconds`, `LegacyApp.FormatTimeLength` and `LegacyApp.FormatTimeInjective` take a natural number of seconds. Negative elapsed times are not modelled.
- `KioskPage.LiveKioskMessages` is weaker than "the kiosk never shows Connection Error with the live API". The server's own message could be that same text. It also assumes a server that serves `/recognize` with the posted image. The shipped backend never mounts the recognition router, and the client posts JSON where a multipart `file` is wanted. Against that backend every call fails, as `KioskPage.DeployedLiveKiosk` states.
- `StudentDashboard.AttendedWithinClasses` and `StudentDashboard.TotalsOrdered` hold only when the records have one entry per session. The page counts records, and `StudentDashboard.DuplicateCountedTwice` shows that a duplicate record is counted twice.
- `AdminDashboard.ToggleSubjectTwice`, `AdminFaculty.ToggleSubjectTwice` and `ManageUsersTab.ToggleSubjectTwice` restore the form only for a code that was not ticked. For a ticked code, the double toggle moves the code to the end of the list.
- The multi-frame kiosk endpoint reads `face_embeddings`, `is_enrolled` and `class_session_id`, which `backend/models.py` does not define. `KioskRouter.KioskMarkAttendanceMulticam` therefore models its control flow over abstract lookups, and its ledger is a list of (session, student) marks.
- The UUID-keyed ids of `backend/models.py` are naturals handed out by a counter.
- `RecognitionService.FaceRecognitionService.LoadModel` takes the result of reading the stored classifier as a parameter. Reading the file is not modelled.
- Saving the probe image (`save_probe_image_from_b64`) is a path parameter of the kiosk endpoint.

## Findings

| source | as written | input that shows it | evidently intended | confidence | as-written member | corrected member |
|---|---|---|---|---|---|---|
| backend/routers/admin.py:29-46 | the uniqueness check is skipped for an enrollment_no of None, "" or "null", but the value is stored verbatim | a user with enrollment_no "" exists, and a second user with another e-mail and enrollment_no "" is created: the check lets it through to the insert, where the column's unique constraint refuses it with an unhandled 500 and nothing is stored | a skipped value is stored as no enrollment number, so the second user is created | medium, not executed | AdminRouter.CreateUserRefusesSecondEmpty | AdminRouter.CreateUserNormalizedKeepsUnique |
