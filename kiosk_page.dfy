/** pages/Kiosk.tsx: the single-camera kiosk screen.  Its flags are set in
    sequence around two awaits, so each handler is modelled by the part
    that runs before its await and the part that runs when the await
    settles.  The camera and the canvas are reduced to booleans (whether
    the element refs exist, whether a stream or a 2D context was
    obtained); the three-second timer that clears the result is not
    modelled. */
module KioskPage {
  import opened Common
  import RecognitionRouter
  import ServicesApi

  /** The message shown after a submission. */
  datatype Shown = Shown(success: bool, message: string)

  /** The screen's flags. */
  datatype Screen = Screen(
    isStreamActive: bool,
    processing: bool,
    result: Option<Shown>,
    permissionError: bool,
    streamAttached: bool,
    tracksLive: bool)

  /** How the awaited submission ended. */
  datatype Settled = Returned(response: RecognitionRouter.RecognitionResponse) | Rejected

  /** The session every kiosk submission names. */
  const KIOSK_SESSION: string := "101"

  const MARKED: string := "Attendance Marked"
  const NOT_RECOGNIZED: string := "Not Recognized"
  const CONNECTION_ERROR: string := "Connection Error"

  /** JavaScript's `s || fallback` on an optional string. */
  function OrElse(s: Option<string>, fallback: string): (r: string)
    ensures s.Some? && s.value != "" ==> r == s.value
    ensures s.None? || s.value == "" ==> r == fallback
  {
    if s.Some? && s.value != "" then s.value else fallback
  }

  /** The message shown for a settled submission. */
  function ResultOf(outcome: Settled): Shown
  {
    match outcome
    case Rejected => Shown(false, CONNECTION_ERROR)
    case Returned(r) =>
      if r.success then Shown(true, OrElse(r.student, MARKED))
      else Shown(false, OrElse(r.message, NOT_RECOGNIZED))
  }

  /** The shown flag is the response's, a shown message is never empty, and
      a thrown submission shows the connection error. */
  lemma ResultOfCases(outcome: Settled)
    ensures ResultOf(outcome).message != ""
    ensures outcome.Rejected? ==> ResultOf(outcome) == Shown(false, CONNECTION_ERROR)
    ensures outcome.Returned? ==> ResultOf(outcome).success == outcome.response.success
    ensures (outcome.Returned? && outcome.response.success && outcome.response.student.Some?
             && outcome.response.student.value != "") ==> ResultOf(outcome).message == outcome.response.student.value
  {
  }

  /** Against a server that serves `/recognize` with the image it is sent
      (the backend as shipped does neither, see `DeployedLiveKiosk`), the
      live API's `markAttendance` catches every transport error, so the
      kiosk's own "Connection Error" branch is dead: that text appears only
      if the server itself sent it, a server error shows the API's
      connection message instead, and a recognised student is shown by the
      label the server sends. */
  lemma LiveKioskMessages(o: RecognitionRouter.RecognizeOutcome)
    ensures var shown := ResultOf(Returned(ServicesApi.MarkAttendance(ServicesApi.FromServer(o))));
      (shown.message == CONNECTION_ERROR ==>
         o.Responded? && (o.response.message == Some(CONNECTION_ERROR) || o.response.student == Some(CONNECTION_ERROR)))
      && (o.InternalError? ==> shown == Shown(false, ServicesApi.CONNECTION_ERROR))
      && (o.Responded? && o.response.success && o.response.student.Some? && o.response.student.value != "" ==>
            shown == Shown(true, o.response.student.value))
  {
    var r := ServicesApi.MarkAttendance(ServicesApi.FromServer(o));
    if r.success {
      assert o.Responded?;
    }
  }

  /** The transport of a live `markAttendance` against the backend as
      shipped: its application never mounts the recognition router, and the
      client posts a JSON body where the endpoint wants a multipart `file`,
      so every call is answered with an error status and the HTTP client
      throws. */
  function DeployedTransport(): ServicesApi.Transport
  {
    ServicesApi.Thrown
  }

  /** With the live API switched on against that backend, every capture
      ends in the API's catch: the kiosk never shows a recognised student
      and always shows the API's connection message. */
  lemma DeployedLiveKiosk()
    ensures var shown := ResultOf(Returned(ServicesApi.MarkAttendance(DeployedTransport())));
      !shown.success && shown.message == ServicesApi.CONNECTION_ERROR && shown.message != CONNECTION_ERROR
  {
  }

  /** The first half of `handleCapture`, up to the await: the screen it
      leaves and whether a submission to the kiosk session was started. */
  function BeginCapture(s: Screen, refsReady: bool, hasContext: bool): (Screen, bool)
  {
    if !refsReady || s.processing then (s, false)
    else (s.(processing := true, result := None), hasContext)
  }

  /** The `try`/`catch`/`finally` after the await. */
  function SettleCapture(s: Screen, outcome: Settled): Screen
  {
    s.(result := Some(ResultOf(outcome)), processing := false)
  }

  /** A capture does nothing while processing or before the refs exist;
      otherwise it sets processing and clears the previous result, and it
      submits exactly when a 2D context was obtained. */
  lemma BeginCaptureCases(s: Screen, refsReady: bool, hasContext: bool)
    ensures var (t, submitted) := BeginCapture(s, refsReady, hasContext);
      && (!refsReady || s.processing ==> t == s && !submitted)
      && (refsReady && !s.processing ==>
            t.processing && t.result.None? && submitted == hasContext
            && t.isStreamActive == s.isStreamActive && t.permissionError == s.permissionError
            && t.streamAttached == s.streamAttached && t.tracksLive == s.tracksLive)
  {
  }

  /** Without a 2D context the `finally` is never reached: processing stays
      set, so every later capture is refused and submits nothing. */
  lemma NullContextBlocksCaptures(s: Screen, refsReady: bool, refsLater: bool, contextLater: bool)
    ensures var (t, _) := BeginCapture(s, refsReady, false);
      t.processing == (s.processing || refsReady)
      && (refsReady ==> BeginCapture(t, refsLater, contextLater) == (t, false))
  {
  }

  /** A completed submission always leaves the screen ready for the next
      capture and showing that submission's message. */
  lemma SettleReadies(s: Screen, refsReady: bool, outcome: Settled)
    requires refsReady && !s.processing
    ensures var (t, submitted) := BeginCapture(s, refsReady, true);
      submitted && !SettleCapture(t, outcome).processing
      && SettleCapture(t, outcome).result == Some(ResultOf(outcome))
      && BeginCapture(SettleCapture(t, outcome), refsReady, true).1
  {
  }

  /** `startCamera` when `getUserMedia` settles: granted or refused. */
  function CameraStarted(s: Screen, hasVideo: bool, granted: bool): Screen
  {
    var cleared := s.(permissionError := false);
    if !granted then cleared.(permissionError := true)
    else if hasVideo then cleared.(streamAttached := true, tracksLive := true, isStreamActive := true)
    else cleared
  }

  /** `stopCamera`. */
  function CameraStopped(s: Screen, hasVideo: bool): Screen
  {
    if hasVideo && s.streamAttached then s.(tracksLive := false, isStreamActive := false) else s
  }

  /** The permission error is set exactly when access was refused; the
      stream becomes active only when access was granted and the video
      element exists; nothing else changes. */
  lemma StartCameraCases(s: Screen, hasVideo: bool, granted: bool)
    ensures var t := CameraStarted(s, hasVideo, granted);
      t.permissionError == !granted
      && t.isStreamActive == (s.isStreamActive || (granted && hasVideo))
      && t.processing == s.processing && t.result == s.result
  {
  }

  /** Stopping deactivates the stream exactly when one is attached, and
      starting again after a stop restores it. */
  lemma StopThenStart(s: Screen, hasVideo: bool)
    ensures CameraStopped(s, hasVideo).isStreamActive == (s.isStreamActive && !(hasVideo && s.streamAttached))
    ensures hasVideo ==> CameraStarted(CameraStopped(s, hasVideo), hasVideo, true).isStreamActive
    ensures !CameraStopped(CameraStarted(s, hasVideo, true), hasVideo).tracksLive || !hasVideo
  {
  }

  class KioskScreen {
    /** Whether the video and canvas elements are mounted. */
    const hasVideo: bool
    const hasCanvas: bool
    var isStreamActive: bool
    var processing: bool
    var result: Option<Shown>
    var permissionError: bool
    var streamAttached: bool
    var tracksLive: bool

    function Snapshot(): Screen
      reads this
    {
      Screen(isStreamActive, processing, result, permissionError, streamAttached, tracksLive)
    }

    constructor (hasVideo: bool, hasCanvas: bool)
      ensures this.hasVideo == hasVideo && this.hasCanvas == hasCanvas
      ensures Snapshot() == Screen(false, false, None, false, false, false)
    {
      this.hasVideo := hasVideo;
      this.hasCanvas := hasCanvas;
      isStreamActive := false;
      processing := false;
      result := None;
      permissionError := false;
      streamAttached := false;
      tracksLive := false;
    }

    method StartCameraSettled(granted: bool)
      modifies this
      ensures Snapshot() == CameraStarted(old(Snapshot()), hasVideo, granted)
    {
      permissionError := false;
      if granted {
        if hasVideo {
          streamAttached := true;
          tracksLive := true;
          isStreamActive := true;
        }
      } else {
        permissionError := true;
      }
    }

    method StopCamera()
      modifies this
      ensures Snapshot() == CameraStopped(old(Snapshot()), hasVideo)
    {
      if hasVideo && streamAttached {
        tracksLive := false;
        isStreamActive := false;
      }
    }

    /** `handleCapture` up to the await; returns the session submitted to,
        if a submission was started. */
    method HandleCapture(hasContext: bool) returns (sessionId: Option<string>)
      modifies this
      ensures (Snapshot(), sessionId.Some?) == BeginCapture(old(Snapshot()), hasVideo && hasCanvas, hasContext)
      ensures sessionId.Some? ==> sessionId.value == KIOSK_SESSION
    {
      sessionId := None;
      if !hasVideo || !hasCanvas || processing {
        return;
      }
      processing := true;
      result := None;
      if hasContext {
        sessionId := Some(KIOSK_SESSION);
      }
    }

    /** The rest of `handleCapture`, when the submission settles. */
    method CaptureSettled(outcome: Settled)
      modifies this
      ensures Snapshot() == SettleCapture(old(Snapshot()), outcome)
    {
      var shown := ResultOf(outcome);
      result := Some(shown);
      processing := false;
    }
  }
}
