/** ui/student_management_ui.py: the counters of FaceCaptureDialog, which
 *  stores one face per timer tick until three are stored, and the two
 *  checks of StudentFormDialog (face status and input validation).
 *
 *  Camera frames and face detection are parameters of each tick. */
module StudentManagement {
  import opened Common
  import opened Embedding
  import opened StudentRepo

  const MaxSamples: nat := 3

  /** What updateFaceStatus shows: complete, or "n/3 samples". */
  datatype FaceStatus = Complete | Partial(count: nat)

  /** updateFaceStatus for a given number of stored embeddings. */
  function FaceStatusOf(count: nat): (s: FaceStatus)
    ensures s == Complete <==> count >= MaxSamples
    ensures s.Partial? ==> s.count == count
  {
    if count >= MaxSamples then Complete else Partial(count)
  }

  /** Why validateInput refuses the form. */
  datatype InputError = MissingStudentId | MissingName

  /** validateInput: both the student id and the name must be non-blank
   *  after stripping; the face-sample check is switched off, so the
   *  number of samples plays no part. */
  function ValidateInput(studentId: string, name: string): (r: Result<(), InputError>)
    ensures r.Success? <==> Strip(studentId) != [] && Strip(name) != []
    ensures r == Failure(MissingStudentId) <==> Strip(studentId) == []
    ensures r == Failure(MissingName) <==> Strip(studentId) != [] && Strip(name) == []
  {
    if Strip(studentId) == [] then Failure(MissingStudentId)
    else if Strip(name) == [] then Failure(MissingName)
    else Success(())
  }

  class FaceCaptureDialog {
    const studentId: string
    var faceEmbeddings: seq<Vector>
    var sampleCount: nat
    /** self.cap is not None. */
    var capOpen: bool
    /** self.timer is not None. */
    var timerActive: bool
    /** The list facesCaptured was emitted with, if it was. */
    var emitted: Option<seq<Vector>>
    var accepted: bool
    const repo: StudentRepository

    /** The count and the list grow together, and the dialog is only
     *  accepted after emitting at least three samples. */
    ghost predicate Valid()
      reads this
    {
      && sampleCount == |faceEmbeddings|
      && (timerActive ==> capOpen)
      && (accepted <==> emitted.Some?)
      && (emitted.Some? ==> |emitted.value| >= MaxSamples)
    }

    constructor (id: string, studentRepo: StudentRepository)
      ensures Valid()
      ensures studentId == id && repo == studentRepo
      ensures faceEmbeddings == [] && sampleCount == 0 && !capOpen && !timerActive
      ensures emitted == None && !accepted
    {
      studentId := id;
      repo := studentRepo;
      faceEmbeddings := [];
      sampleCount := 0;
      capOpen, timerActive := false, false;
      emitted := None;
      accepted := false;
    }

    /** startCapture: the capture object is kept even when it fails to
     *  open; the timer starts only when it opens. The sample count is not
     *  reset. */
    method StartCapture(opens: bool)
      requires Valid()
      modifies this`capOpen, this`timerActive
      ensures Valid()
      ensures capOpen
      ensures timerActive == (opens || old(timerActive))
    {
      capOpen := true;
      if !opens {
        return;
      }
      timerActive := true;
    }

    /** stopCapture: the camera and the timer are released. */
    method StopCapture()
      requires Valid()
      modifies this`capOpen, this`timerActive
      ensures Valid()
      ensures !capOpen && !timerActive
    {
      capOpen := false;
      timerActive := false;
    }

    /** timerEvent. `frameOk` is whether the read succeeded, `embeddings`
     *  what detect_and_encode_faces found, `imagePath` where the frame was
     *  written, and `executeOk` whether the insert commits. Only the first
     *  face is used, and its size is not checked here: the repository
     *  guard refuses anything but 128 elements. */
    method TimerEvent(frameOk: bool, embeddings: seq<Vector>, imagePath: string, executeOk: bool)
      requires Valid()
      modifies this`faceEmbeddings, this`sampleCount, this`capOpen, this`timerActive, repo
      ensures Valid()
      ensures !(old(capOpen) && frameOk && embeddings != []) ==>
                faceEmbeddings == old(faceEmbeddings) && sampleCount == old(sampleCount)
                && capOpen == old(capOpen) && timerActive == old(timerActive)
                && repo.faceRows == old(repo.faceRows)
      ensures old(capOpen) && frameOk && embeddings != [] ==>
                var stored := |embeddings[0]| == VectorSize && executeOk;
                && (stored ==> faceEmbeddings == old(faceEmbeddings) + [embeddings[0]]
                               && sampleCount == old(sampleCount) + 1
                               && repo.faceRows == old(repo.faceRows)
                                  + [FaceRow(studentId, imagePath, BytesCell(ToBytes(embeddings[0])))])
                && (!stored ==> faceEmbeddings == old(faceEmbeddings) && sampleCount == old(sampleCount)
                                && repo.faceRows == old(repo.faceRows))
                && (sampleCount >= MaxSamples ==> !capOpen && !timerActive)
                && (sampleCount < MaxSamples ==> capOpen == old(capOpen) && timerActive == old(timerActive))
    {
      if !capOpen {
        return;
      }
      if !frameOk {
        return;
      }
      if embeddings != [] {
        var embedding := embeddings[0];
        var embeddingBlob := ToBytes(embedding);
        var ok := repo.AddFaceEmbedding(studentId, imagePath, PyBytes(embeddingBlob), executeOk);
        if ok {
          faceEmbeddings := faceEmbeddings + [embedding];
          sampleCount := sampleCount + 1;
        }
        if sampleCount >= MaxSamples {
          StopCapture();
        }
      }
    }

    /** saveFaces: with fewer than three samples nothing is emitted or
     *  accepted; otherwise the samples are emitted and the dialog accepted. */
    method SaveFaces()
      requires Valid()
      modifies this`emitted, this`accepted
      ensures Valid()
      ensures |faceEmbeddings| < MaxSamples ==> emitted == old(emitted) && accepted == old(accepted)
      ensures |faceEmbeddings| >= MaxSamples ==> emitted == Some(faceEmbeddings) && accepted
    {
      if |faceEmbeddings| < MaxSamples {
        return;
      }
      emitted := Some(faceEmbeddings);
      accepted := true;
    }
  }

  /** Whatever the dialog emits makes the form report complete face data. */
  lemma EmittedSamplesAreComplete(samples: seq<Vector>)
    requires |samples| >= MaxSamples
    ensures FaceStatusOf(|samples|) == Complete
  {
  }
}
