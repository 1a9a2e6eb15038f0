/** components/MultiCamCapture.tsx: which cameras are used and how one
    capture assembles its frames.  Media streams and the canvas are outside
    the model: a video element is an opaque handle, and grabbing a frame
    from it is a function parameter. */
module MultiCamCapture {
  import opened Common

  datatype MediaDevice = MediaDevice(deviceId: string, kind: string)

  /** One grabbed frame, as handed to `onCapture`. */
  datatype Frame = Frame(cameraIndex: nat, frameIndex: nat, dataUrl: string)

  /** An attached video element. */
  type Video = nat

  /** Frames per camera in one capture. */
  const FRAMES_PER_CAMERA: nat := 2

  /** The most cameras used at once. */
  const MAX_CAMERAS: nat := 2

  predicate IsVideoInput(d: MediaDevice)
  {
    d.kind == "videoinput"
  }

  /** The cameras among the enumerated devices, in enumeration order. */
  function Cameras(devs: seq<MediaDevice>): (r: seq<MediaDevice>)
    ensures forall d :: d in r <==> d in devs && IsVideoInput(d)
  {
    Filter(devs, IsVideoInput)
  }

  /** `Math.min(2, cams.length)`: at most two, at most the cameras found,
      and zero exactly when no camera was found. */
  function CameraCount(cams: seq<MediaDevice>): (n: nat)
    ensures n <= MAX_CAMERAS && n <= |cams|
    ensures n == 0 <==> cams == []
    ensures |cams| <= MAX_CAMERAS ==> n == |cams|
  {
    if |cams| < MAX_CAMERAS then |cams| else MAX_CAMERAS
  }

  /** The video element bound to slot `i`, if any. */
  function Slot(videos: seq<Option<Video>>, i: nat): Option<Video>
  {
    if i < |videos| then videos[i] else None
  }

  /** The camera slots below `n` that hold a video element, in order. */
  function PresentCameras(videos: seq<Option<Video>>, n: nat): (r: seq<nat>)
    ensures |r| <= n
    ensures forall k :: 0 <= k < |r| ==> r[k] < n && Slot(videos, r[k]).Some?
    ensures forall c :: 0 <= c < n && Slot(videos, c).Some? ==> c in r
    ensures forall k, l :: 0 <= k < l < |r| ==> r[k] < r[l]
  {
    if n == 0 then []
    else PresentCameras(videos, n - 1) + (if Slot(videos, n - 1).Some? then [n - 1] else [])
  }

  /** The frames one capture collects from the first `n` slots: for each
      slot holding a video, two frames, camera by camera. */
  function Captured(videos: seq<Option<Video>>, n: nat, grab: (Video, nat) -> string): seq<Frame>
  {
    if n == 0 then []
    else
      Captured(videos, n - 1, grab)
        + match Slot(videos, n - 1)
          case None => []
          case Some(v) => [Frame(n - 1, 0, grab(v, 0)), Frame(n - 1, 1, grab(v, 1))]
  }

  /** The capture is camera-major: frames `2k` and `2k+1` come from the
      `k`-th present camera, with frame indices 0 then 1, so there are
      exactly two frames per present camera. */
  lemma {:induction false} CapturedShape(videos: seq<Option<Video>>, n: nat, grab: (Video, nat) -> string)
    ensures var fr, cams := Captured(videos, n, grab), PresentCameras(videos, n);
      |fr| == FRAMES_PER_CAMERA * |cams|
      && forall i :: 0 <= i < |fr| ==>
           fr[i].cameraIndex == cams[i / 2] && fr[i].frameIndex == i % 2
           && fr[i].dataUrl == grab(Slot(videos, cams[i / 2]).value, i % 2)
  {
    if n > 0 {
      CapturedShape(videos, n - 1, grab);
      var fr, cams := Captured(videos, n, grab), PresentCameras(videos, n);
      var fr0, cams0 := Captured(videos, n - 1, grab), PresentCameras(videos, n - 1);
      var m := |cams0|;
      match Slot(videos, n - 1)
      case None =>
        assert fr == fr0 && cams == cams0;
      case Some(v) =>
        assert fr == fr0 + [Frame(n - 1, 0, grab(v, 0)), Frame(n - 1, 1, grab(v, 1))];
        assert cams == cams0 + [n - 1];
        forall i | 0 <= i < |fr|
          ensures fr[i].cameraIndex == cams[i / 2] && fr[i].frameIndex == i % 2
                  && fr[i].dataUrl == grab(Slot(videos, cams[i / 2]).value, i % 2)
        {
          if i < |fr0| {
            HalfBelow(i, m);
            assert fr[i] == fr0[i] && cams[i / 2] == cams0[i / 2];
          } else {
            HalfAt(m, i - 2 * m);
            assert cams[m] == n - 1;
          }
        }
    }
  }

  /** Two frames per present camera. */
  lemma {:induction false} CapturedLength(videos: seq<Option<Video>>, n: nat, grab: (Video, nat) -> string)
    ensures |Captured(videos, n, grab)| == FRAMES_PER_CAMERA * |PresentCameras(videos, n)|
  {
    if n > 0 {
      CapturedLength(videos, n - 1, grab);
    }
  }

  lemma HalfBelow(i: nat, m: nat)
    requires i < 2 * m
    ensures i / 2 < m
  {
  }

  lemma HalfAt(m: nat, j: nat)
    requires j < 2
    ensures (2 * m + j) / 2 == m && (2 * m + j) % 2 == j
  {
  }

  /** With at most two cameras in use a capture has at most four frames,
      and it is empty exactly when no used slot holds a video. */
  lemma CapturedBounds(videos: seq<Option<Video>>, n: nat, grab: (Video, nat) -> string)
    requires n <= MAX_CAMERAS
    ensures |Captured(videos, n, grab)| <= 4
    ensures Captured(videos, n, grab) == [] <==> forall c :: 0 <= c < n ==> Slot(videos, c).None?
  {
    CapturedLength(videos, n, grab);
    var cams := PresentCameras(videos, n);
    var fr := Captured(videos, n, grab);
    assert |fr| == 2 * |cams|;
    assert fr == [] <==> cams == [];
    if cams == [] {
      forall c | 0 <= c < n
        ensures Slot(videos, c).None?
      {
        if Slot(videos, c).Some? {
          assert false;
        }
      }
    } else {
      assert cams[0] < n && Slot(videos, cams[0]).Some?;
    }
  }

  /** Whether the capture button is disabled. */
  predicate ButtonDisabled(cameraCount: nat, isProcessing: bool)
  {
    cameraCount == 0 || isProcessing
  }

  class CaptureState {
    var devices: seq<MediaDevice>
    var cameraCount: nat
    /** `videoRefs.current`: slot `i` holds the element of camera `i`. */
    var videos: seq<Option<Video>>

    constructor ()
      ensures devices == [] && cameraCount == 0 && videos == []
    {
      devices := [];
      cameraCount := 0;
      videos := [];
    }

    /** The camera-detection effect, run with the enumerated devices. */
    method DevicesEnumerated(devs: seq<MediaDevice>)
      modifies this`devices, this`cameraCount
      ensures devices == Cameras(devs) && cameraCount == CameraCount(Cameras(devs))
    {
      var cams := Filter(devs, IsVideoInput);
      devices := cams;
      cameraCount := CameraCount(cams);
    }

    /** The stream effect: the device ids whose streams are requested, one
        for each of the first `cameraCount` devices; the stream of entry `i`
        goes to video slot `i`.  None at all when the count is zero. */
    function StreamRequests(): (r: seq<string>)
      reads this
      ensures cameraCount == 0 ==> r == []
      ensures |r| == (if cameraCount < |devices| then cameraCount else |devices|)
      ensures forall i :: 0 <= i < |r| ==> r[i] == devices[i].deviceId
    {
      if cameraCount == 0 then []
      else
        var ds := devices;
        var k := if cameraCount < |ds| then cameraCount else |ds|;
        seq(k, i requires 0 <= i < k => ds[i].deviceId)
    }

    /** The ref callback of slot `i`, given a mounted element. */
    method AttachVideo(i: nat, v: Video)
      modifies this`videos
      ensures |videos| == if i < |old(videos)| then |old(videos)| else i + 1
      ensures videos[i] == Some(v)
      ensures forall j :: 0 <= j < |videos| && j != i ==> Slot(videos, j) == Slot(old(videos), j)
    {
      if i < |videos| {
        videos := videos[i := Some(v)];
      } else {
        videos := videos + seq(i - |videos|, _ => None) + [Some(v)];
      }
    }

    /** `handleCapture`: None when `onCapture` is not called, otherwise the
        frames it is called with. */
    method HandleCapture(grab: (Video, nat) -> string) returns (sent: Option<seq<Frame>>)
      ensures cameraCount == 0 ==> sent.None?
      ensures sent.Some? ==> sent.value != [] && sent.value == Captured(videos, cameraCount, grab)
      ensures sent.None? ==> cameraCount == 0 || Captured(videos, cameraCount, grab) == []
    {
      if cameraCount == 0 {
        return None;
      }
      var frames: seq<Frame> := [];
      var cam := 0;
      while cam < cameraCount
        invariant 0 <= cam <= cameraCount
        invariant frames == Captured(videos, cam, grab)
      {
        var video := Slot(videos, cam);
        if video.Some? {
          var f := 0;
          while f < FRAMES_PER_CAMERA
            invariant 0 <= f <= FRAMES_PER_CAMERA
            invariant frames == Captured(videos, cam, grab)
                                + seq(f, k requires 0 <= k < f => Frame(cam, k, grab(video.value, k)))
          {
            frames := frames + [Frame(cam, f, grab(video.value, f))];
            f := f + 1;
          }
        }
        cam := cam + 1;
      }
      if |frames| == 0 {
        return None;
      }
      sent := Some(frames);
    }
  }

  /** After detection, a capture sends at most four frames, never an empty
      list, and only frames of slots below the camera count. */
  lemma CaptureAfterDetection(devs: seq<MediaDevice>, videos: seq<Option<Video>>, grab: (Video, nat) -> string)
    ensures var n := CameraCount(Cameras(devs));
      |Captured(videos, n, grab)| <= 4
      && forall i :: 0 <= i < |Captured(videos, n, grab)| ==> Captured(videos, n, grab)[i].cameraIndex < n
  {
    var n := CameraCount(Cameras(devs));
    CapturedBounds(videos, n, grab);
    CapturedShape(videos, n, grab);
  }
}
