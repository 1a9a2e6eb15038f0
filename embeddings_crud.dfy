/** The embedding helpers of backend/crud/embeddings.py: storing one
    embedding, and assembling the parallel training lists. */
module EmbeddingsCrud {
  import opened Common
  import opened Schema

  /** `save_embedding`: append one embedding row linked to the student. */
  method SaveEmbedding(db: Database, studentId: nat, embedding: Vector) returns (emb: FaceEmbedding)
    modifies db`embeddings, db`nextId
    ensures emb == FaceEmbedding(old(db.nextId), studentId, embedding)
    ensures db.embeddings == old(db.embeddings) + [emb]
    ensures db.nextId == old(db.nextId) + 1
  {
    emb := FaceEmbedding(db.nextId, studentId, embedding);
    db.embeddings := db.embeddings + [emb];
    db.nextId := db.nextId + 1;
  }

  /** The embeddings a student owns, in table order. */
  function OwnedBy(embs: seq<FaceEmbedding>, studentId: nat): (r: seq<FaceEmbedding>)
    ensures forall e :: e in r <==> e in embs && e.studentId == studentId
  {
    Filter(embs, (e: FaceEmbedding) => e.studentId == studentId)
  }

  /** A student with at least one uploaded photo takes part in training. */
  predicate Contributes(s: Student)
  {
    s.photoCount > 0
  }

  /** The embedding rows that feed training, student-major: the rows of each
      contributing student in turn. */
  function TrainingRows(students: seq<Student>, embs: seq<FaceEmbedding>): seq<FaceEmbedding>
    decreases |students|
  {
    if students == [] then []
    else
      var last := students[|students| - 1];
      TrainingRows(students[..|students| - 1], embs)
        + (if Contributes(last) then OwnedBy(embs, last.id) else [])
  }

  /** Every training row is a stored embedding of a contributing student,
      and every embedding of a contributing student is a training row. */
  lemma {:induction false} TrainingRowsExact(students: seq<Student>, embs: seq<FaceEmbedding>)
    ensures forall e :: e in TrainingRows(students, embs) <==>
      e in embs && exists s :: s in students && Contributes(s) && s.id == e.studentId
    decreases |students|
  {
    if students != [] {
      var init := students[..|students| - 1];
      var last := students[|students| - 1];
      TrainingRowsExact(init, embs);
      assert students == init + [last];
      forall e | e in embs && (exists s :: s in students && Contributes(s) && s.id == e.studentId)
        ensures e in TrainingRows(students, embs)
      {
        var s :| s in students && Contributes(s) && s.id == e.studentId;
        if s != last {
          assert s in init;
        }
      }
    }
  }

  function EmbeddingOf(e: FaceEmbedding): Vector
  {
    e.embedding
  }

  function StudentOf(e: FaceEmbedding): nat
  {
    e.studentId
  }

  /** The inner loop of `get_all_embeddings_for_training`: one student's
      embeddings appended to the two lists, each labelled with that student. */
  method AppendOwned(embeddings: seq<Vector>, labels: seq<nat>, own: seq<FaceEmbedding>, studentId: nat)
    returns (embeddings': seq<Vector>, labels': seq<nat>)
    requires forall k :: 0 <= k < |own| ==> own[k].studentId == studentId
    ensures embeddings' == embeddings + Map(own, EmbeddingOf)
    ensures labels' == labels + Map(own, StudentOf)
  {
    embeddings', labels' := embeddings, labels;
    var j := 0;
    while j < |own|
      invariant 0 <= j <= |own|
      invariant embeddings' == embeddings + Map(own[..j], EmbeddingOf)
      invariant labels' == labels + Map(own[..j], StudentOf)
    {
      MapAppend(own[..j], [own[j]], EmbeddingOf);
      MapAppend(own[..j], [own[j]], StudentOf);
      assert own[..j + 1] == own[..j] + [own[j]];
      embeddings' := embeddings' + [own[j].embedding];
      labels' := labels' + [studentId];
      j := j + 1;
    }
    assert own[..j] == own;
  }

  /** Adding a student adds that student's rows at the end, if they have
      photos. */
  lemma TrainingRowsSnoc(students: seq<Student>, s: Student, embs: seq<FaceEmbedding>)
    ensures TrainingRows(students + [s], embs)
         == TrainingRows(students, embs) + (if Contributes(s) then OwnedBy(embs, s.id) else [])
  {
    assert (students + [s])[..|students|] == students;
  }

  /** Every label names a student with at least one photo. */
  lemma TrainingLabelsContribute(students: seq<Student>, embs: seq<FaceEmbedding>)
    ensures forall e :: e in TrainingRows(Filter(students, Contributes), embs) ==>
      exists s :: s in students && s.photoCount > 0 && s.id == e.studentId
  {
    TrainingRowsExact(Filter(students, Contributes), embs);
  }

  /** `s[..i+1]` is `s[..i]` and then `s[i]`. */
  lemma TakeSnoc<T>(s: seq<T>, i: nat)
    requires i < |s|
    ensures s[..i + 1] == s[..i] + [s[i]]
  {
  }

  /** The outer loop of `get_all_embeddings_for_training`, over the
      contributing students. */
  method CollectRows(contributing: seq<Student>, embs: seq<FaceEmbedding>)
    returns (embeddings: seq<Vector>, labels: seq<nat>)
    requires forall k :: 0 <= k < |contributing| ==> Contributes(contributing[k])
    ensures embeddings == Map(TrainingRows(contributing, embs), EmbeddingOf)
    ensures labels == Map(TrainingRows(contributing, embs), StudentOf)
  {
    embeddings, labels := [], [];
    var i := 0;
    while i < |contributing|
      invariant 0 <= i <= |contributing|
      invariant embeddings == Map(TrainingRows(contributing[..i], embs), EmbeddingOf)
      invariant labels == Map(TrainingRows(contributing[..i], embs), StudentOf)
    {
      var student := contributing[i];
      var own := OwnedBy(embs, student.id);
      assert forall k :: 0 <= k < |own| ==> own[k] in own;
      ghost var before := TrainingRows(contributing[..i], embs);
      embeddings, labels := AppendOwned(embeddings, labels, own, student.id);
      TakeSnoc(contributing, i);
      TrainingRowsSnoc(contributing[..i], student, embs);
      MapAppend(before, own, EmbeddingOf);
      MapAppend(before, own, StudentOf);
      i := i + 1;
    }
    assert contributing[..i] == contributing;
  }

  /** `get_all_embeddings_for_training`: the two parallel lists of the
      contributing students' embeddings, student-major. */
  method GetAllEmbeddingsForTraining(students: seq<Student>, embs: seq<FaceEmbedding>)
    returns (embeddings: seq<Vector>, labels: seq<nat>)
    ensures |embeddings| == |labels| == |TrainingRows(Filter(students, Contributes), embs)|
    ensures forall i :: 0 <= i < |labels| ==>
      var row := TrainingRows(Filter(students, Contributes), embs)[i];
      embeddings[i] == row.embedding && labels[i] == row.studentId
    ensures forall i :: 0 <= i < |labels| ==>
      exists s :: s in students && s.photoCount > 0 && s.id == labels[i]
  {
    var contributing := Filter(students, Contributes);
    assert forall k :: 0 <= k < |contributing| ==> contributing[k] in contributing;
    embeddings, labels := CollectRows(contributing, embs);
    var rows := TrainingRows(contributing, embs);
    TrainingLabelsContribute(students, embs);
    assert forall k :: 0 <= k < |labels| ==> rows[k] in rows;
  }
}
