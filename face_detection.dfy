/** The detection helpers of backend/face_service.py.  The detector itself
    is an oracle: an image is represented by its size and the faces the
    detector reports for it, in detector order. */
module FaceDetection {
  import opened Common

  type Vector = seq<real>

  /** One face as the detector reports it: a floating-point box and the
      L2-normalised embedding. */
  datatype Face = Face(x1: real, y1: real, x2: real, y2: real, normedEmbedding: Vector)

  /** An integer pixel box. */
  datatype Box = Box(x1: int, y1: int, x2: int, y2: int)

  /** One entry of the crop list; the cropped pixels are not modelled. */
  datatype Crop = Crop(bbox: Box, face: Face)

  /** A decoded image: its size and what the detector finds in it. */
  datatype Image = Image(w: int, h: int, faces: seq<Face>)

  // ----------------------------------------------------- data URL split

  /** `_b64_to_cv2`'s split: the text after the first comma when there is
      one (dropping a `data:` header), else the whole string. */
  function PayloadOf(s: string): (r: string)
    ensures ',' !in s ==> r == s
    ensures ',' in s ==> exists i :: 0 <= i < |s| && s[i] == ',' && ',' !in s[..i] && r == s[i + 1..]
  {
    match FirstIndex(s, (c: char) => c == ',')
    case None => s
    case Some(i) =>
      assert forall c :: c in s[..i] ==> c != ',';
      s[i + 1..]
  }

  /** The split recovers the payload from a header-prefixed string whatever
      the payload holds, and leaves a header-less payload as it is. */
  lemma PayloadOfHeader(header: string, payload: string)
    requires ',' !in header
    ensures PayloadOf(header + "," + payload) == payload
  {
    var s := header + "," + payload;
    assert s[|header|] == ',';
    assert forall j :: 0 <= j < |header| ==> s[j] == header[j];
    var i := FirstIndex(s, (c: char) => c == ',').value;
    assert i == |header|;
    assert s[i + 1..] == payload;
  }

  // ---------------------------------------------------------- clamping

  /** The integer box of a face, clamped to the image. */
  function Clamp(f: Face, w: int, h: int): Box
  {
    var x1 := TruncToInt(f.x1);
    var y1 := TruncToInt(f.y1);
    var x2 := TruncToInt(f.x2);
    var y2 := TruncToInt(f.y2);
    Box(if x1 < 0 then 0 else x1, if y1 < 0 then 0 else y1,
        if x2 > w - 1 then w - 1 else x2, if y2 > h - 1 then h - 1 else y2)
  }

  /** Clamped boxes stay inside the image, and a coordinate already in
      bounds is left as truncated. */
  lemma ClampInBounds(f: Face, w: int, h: int)
    ensures var b := Clamp(f, w, h);
      && b.x1 >= 0 && b.y1 >= 0 && b.x2 <= w - 1 && b.y2 <= h - 1
      && (TruncToInt(f.x1) >= 0 ==> b.x1 == TruncToInt(f.x1))
      && (TruncToInt(f.y1) >= 0 ==> b.y1 == TruncToInt(f.y1))
      && (TruncToInt(f.x2) <= w - 1 ==> b.x2 == TruncToInt(f.x2))
      && (TruncToInt(f.y2) <= h - 1 ==> b.y2 == TruncToInt(f.y2))
      && (TruncToInt(f.x1) < 0 ==> b.x1 == 0)
      && (TruncToInt(f.x2) > w - 1 ==> b.x2 == w - 1)
  {
  }

  /** `detect_and_crop`: one clamped crop per detected face, in detector
      order; none when the detector finds nothing. */
  method DetectAndCrop(img: Image) returns (crops: seq<Crop>)
    ensures |crops| == |img.faces|
    ensures crops == [] <==> img.faces == []
    ensures forall i :: 0 <= i < |crops| ==>
      crops[i].face == img.faces[i] && crops[i].bbox == Clamp(img.faces[i], img.w, img.h)
    ensures forall i :: 0 <= i < |crops| ==>
      crops[i].bbox.x1 >= 0 && crops[i].bbox.y1 >= 0 && crops[i].bbox.x2 <= img.w - 1 && crops[i].bbox.y2 <= img.h - 1
  {
    if img.faces == [] {
      return [];
    }
    crops := [];
    var k := 0;
    while k < |img.faces|
      invariant 0 <= k <= |img.faces|
      invariant |crops| == k
      invariant forall i :: 0 <= i < k ==>
        crops[i].face == img.faces[i] && crops[i].bbox == Clamp(img.faces[i], img.w, img.h)
    {
      var f := img.faces[k];
      var x1, y1, x2, y2 := TruncToInt(f.x1), TruncToInt(f.y1), TruncToInt(f.x2), TruncToInt(f.y2);
      x1 := if x1 < 0 then 0 else x1;
      y1 := if y1 < 0 then 0 else y1;
      x2 := if x2 > img.w - 1 then img.w - 1 else x2;
      y2 := if y2 > img.h - 1 then img.h - 1 else y2;
      crops := crops + [Crop(Box(x1, y1, x2, y2), f)];
      k := k + 1;
    }
    forall i | 0 <= i < |crops|
      ensures crops[i].bbox.x1 >= 0 && crops[i].bbox.y1 >= 0 && crops[i].bbox.x2 <= img.w - 1 && crops[i].bbox.y2 <= img.h - 1
    {
      ClampInBounds(img.faces[i], img.w, img.h);
    }
  }

  // ----------------------------------------------------- largest face

  function Area(b: Box): int
  {
    (b.x2 - b.x1) * (b.y2 - b.y1)
  }

  /** Python's `max(crops, key=area)`: the position of the first crop of
      largest area. */
  function Largest(crops: seq<Crop>): (k: nat)
    requires crops != []
    ensures k < |crops|
    ensures forall j :: 0 <= j < |crops| ==> Area(crops[j].bbox) <= Area(crops[k].bbox)
    ensures forall j :: 0 <= j < k ==> Area(crops[j].bbox) < Area(crops[k].bbox)
    decreases |crops|
  {
    if |crops| == 1 then 0
    else
      var prev := Largest(crops[..|crops| - 1]);
      if Area(crops[|crops| - 1].bbox) > Area(crops[prev].bbox) then |crops| - 1 else prev
  }

  /** `get_embedding_from_b64` on a decoded image: nothing when there is no
      crop; otherwise the embedding and clamped box of the first
      largest-area crop. */
  method EmbeddingFromImage(img: Image) returns (embedding: Option<Vector>, bbox: Option<Box>)
    ensures embedding.None? <==> img.faces == []
    ensures bbox.None? <==> img.faces == []
    ensures img.faces != [] ==>
      exists k :: 0 <= k < |img.faces|
        && embedding == Some(img.faces[k].normedEmbedding)
        && bbox == Some(Clamp(img.faces[k], img.w, img.h))
        && (forall j :: 0 <= j < |img.faces| ==> Area(Clamp(img.faces[j], img.w, img.h)) <= Area(bbox.value))
        && (forall j :: 0 <= j < k ==> Area(Clamp(img.faces[j], img.w, img.h)) < Area(bbox.value))
  {
    var crops := DetectAndCrop(img);
    if crops == [] {
      return None, None;
    }
    var k := Largest(crops);
    embedding, bbox := Some(crops[k].face.normedEmbedding), Some(crops[k].bbox);
  }
}
