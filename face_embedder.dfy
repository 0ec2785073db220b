/** face_recognition_module/face_embedder.py: FaceEmbedder's cache of
 *  (vector, id) pairs, first-match lookup, statistics, and the enrollment
 *  capture loop.
 *
 *  The camera and the face_recognition library are inputs: each loop
 *  iteration is one FrameEvent, and compare_faces' answer is a list of
 *  flags, one per cached vector. */
module Embedder {
  import opened Common
  import opened Embedding
  import opened StudentRepo

  const Tolerance: real := 0.6
  const CaptureInterval: real := 1.0

  // ---------------------------------------------------------------- cache

  /** The (id, vector) pairs load_known_faces keeps from the repository's
   *  pairs: those whose blob decodes to shape (128,), in order. */
  function DecodedFaces(pairs: seq<(string, seq<byte>)>): (r: seq<(string, Vector)>)
    ensures |r| <= |pairs|
    ensures forall k :: 0 <= k < |r| ==> |r[k].1| == VectorSize
  {
    if pairs == [] then []
    else
      var rest := DecodedFaces(pairs[1..]);
      if DecodesToVector(pairs[0].1) then [(pairs[0].0, FromBuffer(pairs[0].1).value)] + rest
      else rest
  }

  lemma {:induction false} DecodedFacesAppend(a: seq<(string, seq<byte>)>, b: seq<(string, seq<byte>)>)
    ensures DecodedFaces(a + b) == DecodedFaces(a) + DecodedFaces(b)
  {
    if a == [] {
      assert a + b == b;
    } else {
      assert (a + b)[1..] == a[1..] + b;
      DecodedFacesAppend(a[1..], b);
    }
  }

  /** One more pair adds its entry at the end when it decodes. */
  lemma DecodedFacesSnoc(pairs: seq<(string, seq<byte>)>, pair: (string, seq<byte>))
    ensures DecodedFaces(pairs + [pair])
            == DecodedFaces(pairs) + (if DecodesToVector(pair.1) then [(pair.0, FromBuffer(pair.1).value)] else [])
  {
    DecodedFacesAppend(pairs, [pair]);
    assert [pair][1..] == [];
  }

  /** The two projections of a cache grown by one entry. */
  lemma FaceProjectionsSnoc(fs: seq<(string, Vector)>, f: (string, Vector))
    ensures FaceIds(fs + [f]) == FaceIds(fs) + [f.0]
    ensures FaceVectors(fs + [f]) == FaceVectors(fs) + [f.1]
  {
  }

  function FaceIds(fs: seq<(string, Vector)>): (r: seq<string>)
    ensures |r| == |fs|
  {
    seq(|fs|, k requires 0 <= k < |fs| => fs[k].0)
  }

  function FaceVectors(fs: seq<(string, Vector)>): (r: seq<Vector>)
    ensures |r| == |fs|
  {
    seq(|fs|, k requires 0 <= k < |fs| => fs[k].1)
  }

  /** What the repository hands over never fails the shape check, and each
   *  cached vector re-encodes to the stored blob. */
  lemma {:induction false} RepositoryPairsAllDecode(pairs: seq<(string, seq<byte>)>)
    requires forall k :: 0 <= k < |pairs| ==> |pairs[k].1| == BlobSize
    ensures |DecodedFaces(pairs)| == |pairs|
    ensures forall k :: 0 <= k < |pairs| ==>
              DecodedFaces(pairs)[k].0 == pairs[k].0 && ToBytes(DecodedFaces(pairs)[k].1) == pairs[k].1
  {
    if pairs != [] {
      RepositoryPairsAllDecode(pairs[1..]);
      DecodesToVectorIff(pairs[0].1);
      EncodeDecode(pairs[0].1);
      var r := DecodedFaces(pairs);
      forall k | 0 <= k < |pairs|
        ensures r[k].0 == pairs[k].0 && ToBytes(r[k].1) == pairs[k].1
      {
        if k > 0 {
          assert pairs[1..][k - 1] == pairs[k];
          assert r[k] == DecodedFaces(pairs[1..])[k - 1];
        }
      }
    }
  }

  /** The id at the first index whose flag is true: `matches.index(True)`. */
  function FirstMatch(ids: seq<string>, matches: seq<bool>): (r: Option<string>)
    requires |ids| == |matches|
    ensures r.None? <==> true !in matches
    ensures r.Some? ==> exists k :: 0 <= k < |matches| && matches[k] && r.value == ids[k]
                                    && forall j :: 0 <= j < k ==> !matches[j]
  {
    if ids == [] then None
    else if matches[0] then Some(ids[0])
    else
      var r := FirstMatch(ids[1..], matches[1..]);
      assert forall j :: 0 < j < |matches| ==> matches[j] == matches[1..][j - 1];
      assert r.Some? ==> r.value in ids;
      r
  }

  /** set(known_face_ids), built element by element. */
  function IdSet(ids: seq<string>): (r: set<string>)
    ensures forall x :: x in r <==> x in ids
    ensures |r| <= |ids|
  {
    if ids == [] then {}
    else
      var rest := IdSet(ids[1..]);
      assert forall x :: x in ids[1..] ==> x in ids;
      assert forall x :: x in ids ==> x == ids[0] || x in ids[1..];
      {ids[0]} + rest
  }

  /** The dictionary get_stats returns; `studentsList` is a set because
   *  list(set(...)) has no defined order. */
  datatype EmbedderStats = EmbedderStats(totalFaces: nat, uniqueStudents: nat, studentsList: set<string>)

  // --------------------------------------------------------- capture loop

  /** One pass of the capture loop, as the camera and the user drive it:
   *  the time.time() reading, the encodings detect_and_encode_faces found
   *  (already cast to float32), the path _save_sample_image returned ("" on
   *  failure), whether execute_query succeeds, and whether 'q' was pressed. */
  datatype FrameEvent = FrameEvent(time: real, encodings: seq<Vector>, imagePath: string,
                                   executeOk: bool, quit: bool)

  /** The loop's counters, and the KhuonMat rows it wrote and the times of
   *  its accepted samples. */
  datatype CaptureState = CaptureState(collected: nat, lastTime: real, embeddings: seq<Vector>,
                                       written: seq<FaceRow>, times: seq<real>)

  const InitialCapture := CaptureState(0, 0.0, [], [], [])

  /** Whether a frame yields a sample: a face is present, the interval has
   *  passed, the first face has 128 elements, its image was saved, and the
   *  insert succeeded. */
  predicate Accepts(s: CaptureState, e: FrameEvent)
    ensures Accepts(s, e) ==> e.encodings != [] && ValidateEmbedding(PyBytes(ToBytes(e.encodings[0]))).Success?
  {
    && e.encodings != []
    && e.time - s.lastTime >= CaptureInterval
    && |e.encodings[0]| == VectorSize
    && e.imagePath != ""
    && e.executeOk
  }

  /** The effect of one frame on the counters. */
  function Step(studentId: string, s: CaptureState, e: FrameEvent): (r: CaptureState)
    ensures r.collected == s.collected + (if Accepts(s, e) then 1 else 0)
    ensures |r.written| == |s.written| + (r.collected - s.collected)
    ensures !Accepts(s, e) ==> r == s
  {
    if Accepts(s, e) then
      var enc := e.encodings[0];
      CaptureState(s.collected + 1, e.time, s.embeddings + [enc],
                   s.written + [FaceRow(studentId, e.imagePath, BytesCell(ToBytes(enc)))],
                   s.times + [e.time])
    else s
  }

  /** The whole loop: it runs while fewer than `n` samples are collected,
   *  stops when the camera has no more frames, and stops after a frame on
   *  which 'q' was pressed. */
  function Run(studentId: string, n: int, s: CaptureState, frames: seq<FrameEvent>): (r: CaptureState)
    ensures s.collected <= r.collected <= (if s.collected < n then n else s.collected)
    ensures |r.written| - |s.written| == r.collected - s.collected
    decreases |frames|
  {
    if s.collected >= n || frames == [] then s
    else
      var next := Step(studentId, s, frames[0]);
      if frames[0].quit then next else Run(studentId, n, next, frames[1..])
  }

  /** The counters' invariant: the count, the list and the rows agree, every
   *  sample has 128 elements and is stored as its float32 bytes under the
   *  student's id, and accepted samples are at least CaptureInterval apart. */
  ghost predicate CaptureInvariant(studentId: string, s: CaptureState)
  {
    && s.collected == |s.embeddings| == |s.written| == |s.times|
    && (forall k :: 0 <= k < |s.embeddings| ==> |s.embeddings[k]| == VectorSize)
    && (forall k :: 0 <= k < |s.written| ==>
          s.written[k].studentId == studentId && s.written[k].blob == BytesCell(ToBytes(s.embeddings[k])))
    && (forall k :: 0 < k < |s.times| ==> s.times[k] - s.times[k - 1] >= CaptureInterval)
    && (s.times == [] ==> s.lastTime == 0.0)
    && (s.times != [] ==> s.lastTime == s.times[|s.times| - 1])
  }

  lemma StepKeepsInvariant(studentId: string, s: CaptureState, e: FrameEvent)
    requires CaptureInvariant(studentId, s)
    ensures CaptureInvariant(studentId, Step(studentId, s, e))
    ensures Step(studentId, s, e).collected == s.collected + (if Accepts(s, e) then 1 else 0)
  {
  }

  /** A frame whose insert fails changes no counter, list or time. */
  lemma FailedWriteChangesNothing(studentId: string, s: CaptureState, e: FrameEvent)
    requires !e.executeOk
    ensures Step(studentId, s, e) == s
  {
  }

  /** The loop keeps the invariant, never collects more than asked for,
   *  and only appends to what was there. */
  lemma {:induction false} RunKeepsInvariant(studentId: string, n: int, s: CaptureState, frames: seq<FrameEvent>)
    requires CaptureInvariant(studentId, s)
    requires s.collected <= n || |s.embeddings| == 0
    ensures CaptureInvariant(studentId, Run(studentId, n, s, frames))
    ensures Run(studentId, n, s, frames).collected <= if n < 0 then 0 else n
    ensures Run(studentId, n, s, frames).collected >= s.collected
    decreases |frames|
  {
    if s.collected >= n || frames == [] {
    } else {
      StepKeepsInvariant(studentId, s, frames[0]);
      if !frames[0].quit {
        RunKeepsInvariant(studentId, n, Step(studentId, s, frames[0]), frames[1..]);
      }
    }
  }

  /** Rows holding the float32 bytes of 128-element vectors under one id
   *  read back, through the repository filter and the embedder's decode,
   *  as exactly those vectors under that id. */
  lemma {:induction false} StoredSamplesReload(studentId: string, embeddings: seq<Vector>, written: seq<FaceRow>)
    requires |written| == |embeddings|
    requires forall k :: 0 <= k < |written| ==>
               && written[k].studentId == studentId
               && written[k].blob == BytesCell(ToBytes(embeddings[k]))
               && |embeddings[k]| == VectorSize
    ensures DecodedFaces(ValidEmbeddings(written))
            == seq(|embeddings|, k requires 0 <= k < |embeddings| => (studentId, embeddings[k]))
  {
    if written != [] {
      assert forall k :: 0 <= k < |written| - 1 ==> written[1..][k] == written[k + 1];
      StoredSamplesReload(studentId, embeddings[1..], written[1..]);
      DecodeEncode(embeddings[0]);
      var pairs := ValidEmbeddings(written);
      assert pairs == [(studentId, ToBytes(embeddings[0]))] + ValidEmbeddings(written[1..]);
      assert pairs[1..] == ValidEmbeddings(written[1..]);
    }
  }

  /** What a capture wrote reloads as exactly the samples it returned. */
  lemma WrittenRowsReloadAsSamples(studentId: string, s: CaptureState)
    requires CaptureInvariant(studentId, s)
    ensures FaceIds(DecodedFaces(ValidEmbeddings(s.written))) == seq(|s.embeddings|, k => studentId)
    ensures FaceVectors(DecodedFaces(ValidEmbeddings(s.written))) == s.embeddings
  {
    StoredSamplesReload(studentId, s.embeddings, s.written);
  }

  lemma FaceProjectionsAppend(a: seq<(string, Vector)>, b: seq<(string, Vector)>)
    ensures FaceIds(a + b) == FaceIds(a) + FaceIds(b)
    ensures FaceVectors(a + b) == FaceVectors(a) + FaceVectors(b)
  {
  }

  /** The reload after a capture finds what the table held before,
   *  followed by exactly the captured samples under the student's id. */
  lemma CaptureReloadEndsWithSamples(before: seq<FaceRow>, studentId: string, s: CaptureState)
    requires CaptureInvariant(studentId, s)
    ensures var after := DecodedFaces(ValidEmbeddings(before + s.written));
            var prior := DecodedFaces(ValidEmbeddings(before));
            && FaceIds(after) == FaceIds(prior) + seq(|s.embeddings|, k => studentId)
            && FaceVectors(after) == FaceVectors(prior) + s.embeddings
  {
    ValidEmbeddingsAppend(before, s.written);
    DecodedFacesAppend(ValidEmbeddings(before), ValidEmbeddings(s.written));
    FaceProjectionsAppend(DecodedFaces(ValidEmbeddings(before)), DecodedFaces(ValidEmbeddings(s.written)));
    WrittenRowsReloadAsSamples(studentId, s);
  }

  /** Quitting on a frame that yields no sample, before anything was
   *  collected, ends the capture with nothing collected. */
  lemma QuitBeforeAnySample(studentId: string, n: int, e: FrameEvent, rest: seq<FrameEvent>)
    requires n > 0 && e.quit && e.encodings == []
    ensures Run(studentId, n, InitialCapture, [e] + rest).collected == 0
    ensures Run(studentId, n, InitialCapture, [e] + rest).written == []
  {
  }

  // ----------------------------------------------------------- the object

  class FaceEmbedder {
    var knownEncodings: seq<Vector>
    var knownIds: seq<string>
    const tolerance: real
    const studentRepo: StudentRepository

    ghost predicate Valid()
      reads this
    {
      && |knownEncodings| == |knownIds|
      && forall k :: 0 <= k < |knownEncodings| ==> |knownEncodings[k]| == VectorSize
    }

    /** __init__, whose load_known_faces reads through `repo`. */
    constructor (repo: StudentRepository, readOk: bool)
      ensures Valid()
      ensures studentRepo == repo && tolerance == Tolerance
      ensures readOk ==> knownIds == FaceIds(DecodedFaces(ValidEmbeddings(repo.faceRows)))
                         && knownEncodings == FaceVectors(DecodedFaces(ValidEmbeddings(repo.faceRows)))
      ensures !readOk ==> knownIds == [] && knownEncodings == []
    {
      studentRepo := repo;
      tolerance := Tolerance;
      knownEncodings, knownIds := [], [];
      new;
      LoadKnownFaces(readOk);
    }

    /** load_known_faces: the lists are emptied first, so a failed read
     *  leaves an empty cache. */
    method LoadKnownFaces(readOk: bool)
      modifies this`knownEncodings, this`knownIds
      ensures Valid()
      ensures readOk ==> knownIds == FaceIds(DecodedFaces(ValidEmbeddings(studentRepo.faceRows)))
                         && knownEncodings == FaceVectors(DecodedFaces(ValidEmbeddings(studentRepo.faceRows)))
      ensures !readOk ==> knownIds == [] && knownEncodings == []
    {
      knownEncodings, knownIds := [], [];
      var rawData := studentRepo.GetAllFaceEmbeddings(readOk);
      var i := 0;
      while i < |rawData|
        invariant 0 <= i <= |rawData|
        invariant knownIds == FaceIds(DecodedFaces(rawData[..i]))
        invariant knownEncodings == FaceVectors(DecodedFaces(rawData[..i]))
      {
        var (studentId, blob) := rawData[i];
        assert rawData[..i + 1] == rawData[..i] + [rawData[i]];
        DecodedFacesSnoc(rawData[..i], rawData[i]);
        var decoded := FromBuffer(blob);
        if decoded.Some? && |decoded.value| == VectorSize {
          FaceProjectionsSnoc(DecodedFaces(rawData[..i]), (studentId, decoded.value));
          knownEncodings := knownEncodings + [decoded.value];
          knownIds := knownIds + [studentId];
        }
        i := i + 1;
      }
      assert rawData[..i] == rawData;
    }

    /** recognize_face: the id at the first flag compare_faces raised.
     *  `matches` holds one flag per cached vector. */
    function RecognizeFace(matches: seq<bool>): (r: Option<string>)
      reads this
      requires Valid() && |matches| == |knownEncodings|
      ensures knownEncodings == [] ==> r == None
      ensures r.None? <==> true !in matches
      ensures r.Some? ==> exists k :: 0 <= k < |matches| && matches[k] && r.value == knownIds[k]
                                      && forall j :: 0 <= j < k ==> !matches[j]
    {
      if knownEncodings == [] then None else FirstMatch(knownIds, matches)
    }

    /** get_stats. */
    function GetStats(): (s: EmbedderStats)
      reads this
      requires Valid()
      ensures s.totalFaces == |knownEncodings|
      ensures forall x :: x in s.studentsList <==> x in knownIds
      ensures s.uniqueStudents == |s.studentsList| <= s.totalFaces
    {
      var ids := IdSet(knownIds);
      EmbedderStats(|knownEncodings|, |ids|, ids)
    }

    /** capture_and_extract_face_embedding. `cameraOpens` is whether
     *  _initialize_camera succeeded; the end of `frames` is the first
     *  failed camera read; `reloadReadOk` is whether the final
     *  load_known_faces can read the table. */
    method CaptureAndExtractFaceEmbedding(studentId: string, numSamples: int, cameraOpens: bool,
                                          frames: seq<FrameEvent>, reloadReadOk: bool)
      returns (r: Option<seq<Vector>>)
      requires Valid()
      modifies this`knownEncodings, this`knownIds, studentRepo
      ensures Valid()
      ensures (Strip(studentId) == [] || numSamples <= 0 || !cameraOpens) ==>
                r == None && studentRepo.faceRows == old(studentRepo.faceRows)
                && knownIds == old(knownIds) && knownEncodings == old(knownEncodings)
      ensures !(Strip(studentId) == [] || numSamples <= 0 || !cameraOpens) ==>
                var s := Run(studentId, numSamples, InitialCapture, frames);
                && studentRepo.faceRows == old(studentRepo.faceRows) + s.written
                && (s.collected > 0 ==> r == Some(s.embeddings))
                && (s.collected == 0 ==> r == None && knownIds == old(knownIds)
                                         && knownEncodings == old(knownEncodings))
                && (s.collected > 0 && reloadReadOk ==>
                      var prior := DecodedFaces(ValidEmbeddings(old(studentRepo.faceRows)));
                      && knownIds == FaceIds(prior) + seq(|s.embeddings|, k => studentId)
                      && knownEncodings == FaceVectors(prior) + s.embeddings)
                && (s.collected > 0 && !reloadReadOk ==> knownIds == [] && knownEncodings == [])
    {
      if Strip(studentId) == [] {
        return None;
      }
      if numSamples <= 0 {
        return None;
      }
      if !cameraOpens {
        return None;
      }
      var faceEmbeddings: seq<Vector> := [];
      var samplesCollected: nat := 0;
      var lastCaptureTime: real := 0.0;
      ghost var s := InitialCapture;
      var i := 0;
      var stopped := false;
      while samplesCollected < numSamples && !stopped
        invariant 0 <= i <= |frames|
        invariant s.collected == samplesCollected && s.embeddings == faceEmbeddings
                  && s.lastTime == lastCaptureTime
        invariant studentRepo.faceRows == old(studentRepo.faceRows) + s.written
        invariant knownIds == old(knownIds) && knownEncodings == old(knownEncodings)
        invariant Run(studentId, numSamples, InitialCapture, frames)
                  == if stopped then s else Run(studentId, numSamples, s, frames[i..])
        decreases |frames| - i, if stopped then 0 else 1
      {
        if i == |frames| {
          stopped := true;
        } else {
          var e := frames[i];
          assert frames[i..][1..] == frames[i + 1..];
          ghost var next := Step(studentId, s, e);
          if e.encodings != [] && e.time - lastCaptureTime >= CaptureInterval {
            var faceEncoding := e.encodings[0];
            if |faceEncoding| == VectorSize {
              if e.imagePath != "" {
                var embeddingBlob := ToBytes(faceEncoding);
                var ok := studentRepo.AddFaceEmbedding(studentId, e.imagePath, PyBytes(embeddingBlob), e.executeOk);
                if ok {
                  faceEmbeddings := faceEmbeddings + [faceEncoding];
                  samplesCollected := samplesCollected + 1;
                  lastCaptureTime := e.time;
                }
              }
            }
          }
          s := next;
          i := i + 1;
          if e.quit {
            stopped := true;
          }
        }
      }
      if samplesCollected > 0 {
        RunKeepsInvariant(studentId, numSamples, InitialCapture, frames);
        CaptureReloadEndsWithSamples(old(studentRepo.faceRows), studentId, s);
        LoadKnownFaces(reloadReadOk);
        return Some(faceEmbeddings);
      }
      return None;
    }
  }
}
