/** `FaceRecognitionService` of backend/services/face_service.py: the
    validation ladder in front of the embedder and the guards around the
    classifier.  The detector, the embedder and the classifier's prediction
    are oracles; a trained classifier is represented by its training data. */
module RecognitionService {
  import opened Common

  type Vector = seq<real>

  /** One face as the service's detector reports it. */
  datatype DetectedFace = DetectedFace(x1: real, y1: real, x2: real, y2: real, embedding: Vector)

  /** A fitted classifier, identified by the data it was fitted on. */
  datatype Classifier = Classifier(embeddings: seq<Vector>, labels: seq<int>)

  const NO_FACE: string := "No face detected in image"
  const MULTIPLE_FACES: string := "Multiple faces detected; please upload a photo with only one face"
  const FACE_TOO_SMALL: string := "Face too small; ensure face is at least 100x100 pixels and clearly visible"
  const NO_TRAINING_DATA: string := "No embeddings provided for training"

  /** The smallest accepted face side, in pixels. */
  const MIN_FACE_SIDE: int := 100

  function Width(f: DetectedFace): int
  {
    TruncToInt(f.x2) - TruncToInt(f.x1)
  }

  function Height(f: DetectedFace): int
  {
    TruncToInt(f.y2) - TruncToInt(f.y1)
  }

  /** `generate_embedding` on the faces detected in an image: it raises
      unless there is exactly one face of at least 100 by 100 pixels, and
      the checks run no face, several faces, too small, in that order. */
  function GenerateEmbedding(faces: seq<DetectedFace>): (r: Result<Vector>)
    ensures r == Err(NO_FACE) <==> faces == []
    ensures r == Err(MULTIPLE_FACES) <==> |faces| > 1
    ensures r == Err(FACE_TOO_SMALL) <==>
      |faces| == 1 && (Width(faces[0]) < MIN_FACE_SIDE || Height(faces[0]) < MIN_FACE_SIDE)
    ensures r.Ok? <==>
      |faces| == 1 && Width(faces[0]) >= MIN_FACE_SIDE && Height(faces[0]) >= MIN_FACE_SIDE
    ensures r.Ok? ==> r.value == faces[0].embedding
  {
    if faces == [] then Err(NO_FACE)
    else if |faces| > 1 then Err(MULTIPLE_FACES)
    else
      var face := faces[0];
      if Width(face) < MIN_FACE_SIDE || Height(face) < MIN_FACE_SIDE then Err(FACE_TOO_SMALL)
      else Ok(face.embedding)
  }

  class FaceRecognitionService {
    var appLoaded: bool
    var classifier: Option<Classifier>

    constructor ()
      ensures !appLoaded && classifier == None
    {
      appLoaded := false;
      classifier := None;
    }

    /** `load_model`: the detector is loaded; `stored` is what reading the
        saved classifier yields, None when that fails. */
    method LoadModel(stored: Option<Classifier>)
      modifies this
      ensures appLoaded
      ensures classifier == stored
    {
      appLoaded := true;
      classifier := stored;
    }

    /** `train_classifier`: raises on empty input and keeps the old
        classifier; otherwise the classifier is refitted on the data. */
    method TrainClassifier(embeddings: seq<Vector>, labels: seq<int>) returns (r: Result<()>)
      modifies this`classifier
      ensures r.Err? <==> embeddings == []
      ensures r.Err? ==> r.error == NO_TRAINING_DATA && classifier == old(classifier)
      ensures r.Ok? ==> classifier == Some(Classifier(embeddings, labels))
    {
      if embeddings == [] {
        return Err(NO_TRAINING_DATA);
      }
      classifier := Some(Classifier(embeddings, labels));
      r := Ok(());
    }

    /** `recognize_face`: no prediction without a classifier, otherwise the
        classifier's predicted label. */
    function RecognizeFace(embedding: Vector, predict: (Classifier, Vector) -> int): (r: Option<int>)
      reads this
      ensures r.None? <==> classifier.None?
      ensures r.Some? ==> r.value == predict(classifier.value, embedding)
    {
      if classifier.None? then None else Some(predict(classifier.value, embedding))
    }
  }

  /** An accepted photo shows exactly one face, at least 100 pixels wide
      and high, and yields that face's embedding. */
  lemma AcceptedPhotoHasOneLargeFace(faces: seq<DetectedFace>)
    requires GenerateEmbedding(faces).Ok?
    ensures |faces| == 1 && Width(faces[0]) >= 100 && Height(faces[0]) >= 100
    ensures GenerateEmbedding(faces).value == faces[0].embedding
  {
  }
}
