/** face_recognition_module/face_recognizer.py: the known-face cache of
 *  FaceRecognizer (three index-aligned lists), nearest-match selection with
 *  a strict threshold, and the shaping of per-frame results.
 *
 *  The face_recognition library is an input here: for each probe encoding
 *  the caller supplies `face_distance`'s answer, one distance per cached
 *  vector. */
module Recognizer {
  import opened Common
  import opened Embedding
  import StudentRepo

  const DefaultThreshold: real := 0.6

  /** A row as load_known_faces sees it: MaSV_FK and DuLieuMaHoa, which may be None. */
  datatype StoreRow = StoreRow(studentId: string, blob: Option<seq<byte>>)

  /** One cache entry: the decoded vector, its student id and the student's name. */
  datatype KnownFace = KnownFace(encoding: Vector, id: string, name: string)

  /** The (ma_sv, ten_sv, confidence) tuple of a successful comparison. */
  datatype Match = Match(id: string, name: string, confidence: real)

  /** face_location as (top, right, bottom, left). */
  datatype Location = Location(top: int, right: int, bottom: int, left: int)

  /** One entry of recognize_faces_in_frame's list; the cropped face image
   *  is pixel data and is not part of the model. */
  datatype FaceResult = FaceResult(id: Option<string>, name: string, location: Location, confidence: real)

  /** The dictionary get_statistics returns. */
  datatype RecognizerStats = RecognizerStats(totalKnownFaces: nat, threshold: real, knownStudents: seq<(string, string)>)

  // ---------------------------------------------------------------- cache

  /** The cache entry one row contributes: its blob must be present, decode
   *  to shape (128,), and its student must exist (`students` maps MaSV to
   *  TenSV as get_student_by_id finds them). */
  function RowFace(row: StoreRow, students: map<string, string>): (r: Option<KnownFace>)
    ensures r.Some? <==> row.blob.Some? && |row.blob.value| == BlobSize && row.studentId in students
    ensures r.Some? ==> && ToBytes(r.value.encoding) == row.blob.value
                        && r.value.id == row.studentId && r.value.name == students[row.studentId]
  {
    if row.blob.None? then None
    else if !DecodesToVector(row.blob.value) then DecodesToVectorIff(row.blob.value); None
    else if row.studentId !in students then None
    else DecodesToVectorIff(row.blob.value); EncodeDecode(row.blob.value); Some(KnownFace(FromBuffer(row.blob.value).value, row.studentId, students[row.studentId]))
  }

  /** The cache a reload over `rows` builds: accepted rows, in row order. */
  function KeptFaces(rows: seq<StoreRow>, students: map<string, string>): (r: seq<KnownFace>)
    ensures |r| <= |rows|
    ensures forall k :: 0 <= k < |r| ==> |r[k].encoding| == VectorSize
  {
    if rows == [] then []
    else
      var rest := KeptFaces(rows[1..], students);
      match RowFace(rows[0], students)
      case Some(f) => [f] + rest
      case None => rest
  }

  function Encodings(fs: seq<KnownFace>): (r: seq<Vector>)
    ensures |r| == |fs|
  {
    seq(|fs|, k requires 0 <= k < |fs| => fs[k].encoding)
  }

  function Ids(fs: seq<KnownFace>): (r: seq<string>)
    ensures |r| == |fs|
  {
    seq(|fs|, k requires 0 <= k < |fs| => fs[k].id)
  }

  function Names(fs: seq<KnownFace>): (r: seq<string>)
    ensures |r| == |fs|
  {
    seq(|fs|, k requires 0 <= k < |fs| => fs[k].name)
  }

  lemma {:induction false} KeptFacesAppend(a: seq<StoreRow>, b: seq<StoreRow>, students: map<string, string>)
    ensures KeptFaces(a + b, students) == KeptFaces(a, students) + KeptFaces(b, students)
  {
    if a == [] {
      assert a + b == b;
    } else {
      assert (a + b)[1..] == a[1..] + b;
      KeptFacesAppend(a[1..], b, students);
    }
  }

  /** One more row adds its entry, if it has one, at the end. */
  lemma KeptFacesSnoc(rows: seq<StoreRow>, row: StoreRow, students: map<string, string>)
    ensures KeptFaces(rows + [row], students)
            == KeptFaces(rows, students) + (match RowFace(row, students) case Some(f) => [f] case None => [])
  {
    KeptFacesAppend(rows, [row], students);
    assert [row][1..] == [];
  }

  /** The three projections of a cache grown by one entry. */
  lemma ProjectionsSnoc(fs: seq<KnownFace>, f: KnownFace)
    ensures Encodings(fs + [f]) == Encodings(fs) + [f.encoding]
    ensures Ids(fs + [f]) == Ids(fs) + [f.id]
    ensures Names(fs + [f]) == Names(fs) + [f.name]
  {
  }

  /** A failing row is skipped and the reload goes on with the rows after it:
   *  it removes exactly that row's entry. */
  lemma SkippedRowLeavesTheRest(a: seq<StoreRow>, bad: StoreRow, b: seq<StoreRow>, students: map<string, string>)
    requires RowFace(bad, students).None?
    ensures KeptFaces(a + [bad] + b, students) == KeptFaces(a, students) + KeptFaces(b, students)
  {
    KeptFacesAppend(a + [bad], b, students);
    KeptFacesAppend(a, [bad], students);
    assert [bad][1..] == [];
  }

  /** When every row is acceptable, the cache holds one entry per row. */
  lemma {:induction false} AllGoodRowsKept(rows: seq<StoreRow>, students: map<string, string>)
    requires forall k :: 0 <= k < |rows| ==> RowFace(rows[k], students).Some?
    ensures |KeptFaces(rows, students)| == |rows|
  {
    if rows != [] {
      assert forall k :: 0 <= k < |rows[1..]| ==> rows[1..][k] == rows[k + 1];
      AllGoodRowsKept(rows[1..], students);
    }
  }

  /** The rows get_all_face_embeddings hands over, as load_known_faces reads them. */
  function FromRepository(pairs: seq<(string, seq<byte>)>): (r: seq<StoreRow>)
    ensures |r| == |pairs|
  {
    seq(|pairs|, k requires 0 <= k < |pairs| => StoreRow(pairs[k].0, Some(pairs[k].1)))
  }

  /** Fed from the repository, the None and shape checks never fire: a row
   *  is dropped only when its student is unknown. */
  lemma RepositoryRowsOnlyNeedStudent(table: seq<StudentRepo.FaceRow>, students: map<string, string>)
    requires forall k :: 0 <= k < |table| ==> table[k].studentId in students
    ensures |KeptFaces(FromRepository(StudentRepo.ValidEmbeddings(table)), students)|
            == |StudentRepo.ValidEmbeddings(table)|
  {
    var pairs := StudentRepo.ValidEmbeddings(table);
    var rows := FromRepository(pairs);
    forall k | 0 <= k < |rows|
      ensures RowFace(rows[k], students).Some?
    {
      StudentRepo.ValidEmbeddingsMember(table, pairs[k].0, pairs[k].1);
      assert pairs[k] in pairs;
      DecodesToVectorIff(pairs[k].1);
    }
    AllGoodRowsKept(rows, students);
  }

  // ------------------------------------------------------------- matching

  /** k is the first index holding the minimum of d (numpy.argmin). */
  ghost predicate IsFirstMin(d: seq<real>, k: int)
  {
    && 0 <= k < |d|
    && (forall j :: 0 <= j < |d| ==> d[k] <= d[j])
    && (forall j :: 0 <= j < k ==> d[k] < d[j])
  }

  lemma FirstMinUnique(d: seq<real>, k1: int, k2: int)
    requires IsFirstMin(d, k1) && IsFirstMin(d, k2)
    ensures k1 == k2
  {
    assert d[k1] == d[k2];
  }

  /** numpy.argmin: the first index of the smallest distance. */
  function ArgMin(d: seq<real>): (k: nat)
    requires |d| > 0
    ensures IsFirstMin(d, k)
  {
    if |d| == 1 then 0
    else
      var k := ArgMin(d[..|d| - 1]);
      assert forall j :: 0 <= j < |d| - 1 ==> d[..|d| - 1][j] == d[j];
      if d[|d| - 1] < d[k] then |d| - 1 else k
  }

  /** Python's round(x, 2) on exact reals: to the nearest hundredth, ties to even. */
  function Round2(x: real): (r: real)
    ensures (r * 100.0).Floor as real == r * 100.0
    ensures x - 0.005 <= r <= x + 0.005
  {
    var y := x * 100.0;
    var f := y.Floor;
    var frac := y - f as real;
    var n := if frac < 0.5 then f
             else if frac > 0.5 then f + 1
             else if f % 2 == 0 then f else f + 1;
    assert -0.5 <= n as real - y <= 0.5;
    var r := n as real / 100.0;
    assert r * 100.0 == n as real;
    assert r - x == (n as real - y) / 100.0;
    r
  }

  lemma Round2Exact(n: int)
    ensures Round2(n as real / 100.0) == n as real / 100.0
  {
    var y := (n as real / 100.0) * 100.0;
    assert y == n as real;
    assert y.Floor == n;
  }

  lemma {:induction false} Round2Monotone(x: real, y: real)
    requires x <= y
    ensures Round2(x) <= Round2(y)
  {
    var fx := (x * 100.0).Floor;
    var fy := (y * 100.0).Floor;
    assert fx <= fy;
    if fx == fy {
      assert x * 100.0 - fx as real <= y * 100.0 - fy as real;
    }
  }

  /** The confidence reported for a distance: (1 - d) * 100, rounded to two places. */
  function Confidence(distance: real): (c: real)
    ensures (c * 100.0).Floor as real == c * 100.0
    ensures (1.0 - distance) * 100.0 - 0.005 <= c <= (1.0 - distance) * 100.0 + 0.005
    ensures distance == 0.0 ==> c == 100.0
  {
    Round2Exact(10000);
    Round2((1.0 - distance) * 100.0)
  }

  /** _compare_face_with_database: the first nearest cached face, reported
   *  only when its distance is strictly below the threshold. */
  function CompareFaceWithDatabase(ids: seq<string>, names: seq<string>, distances: seq<real>, threshold: real)
    : (r: Option<Match>)
    requires |ids| == |names| == |distances|
    ensures r.None? <==> forall j :: 0 <= j < |distances| ==> distances[j] >= threshold
    ensures r.Some? ==> exists k :: IsFirstMin(distances, k) && distances[k] < threshold
                                    && r.value == Match(ids[k], names[k], Confidence(distances[k]))
  {
    if |distances| == 0 then None
    else
      var k := ArgMin(distances);
      if distances[k] < threshold then Some(Match(ids[k], names[k], Confidence(distances[k])))
      else None
  }

  /** Raising the threshold never loses a match, and never changes which
   *  face is matched: the chosen index does not depend on the threshold. */
  lemma ThresholdMonotone(ids: seq<string>, names: seq<string>, distances: seq<real>, t1: real, t2: real)
    requires |ids| == |names| == |distances|
    requires t1 <= t2
    ensures CompareFaceWithDatabase(ids, names, distances, t1).Some? ==>
            CompareFaceWithDatabase(ids, names, distances, t2) == CompareFaceWithDatabase(ids, names, distances, t1)
  {
    var r1 := CompareFaceWithDatabase(ids, names, distances, t1);
    var r2 := CompareFaceWithDatabase(ids, names, distances, t2);
    if r1.Some? {
      var k1 :| IsFirstMin(distances, k1) && distances[k1] < t1 && r1.value == Match(ids[k1], names[k1], Confidence(distances[k1]));
      assert r2.Some?;
      var k2 :| IsFirstMin(distances, k2) && distances[k2] < t2 && r2.value == Match(ids[k2], names[k2], Confidence(distances[k2]));
      FirstMinUnique(distances, k1, k2);
    }
  }

  /** A probe identical to a cached vector (distance 0) is matched with
   *  confidence 100.0 under any positive threshold. */
  lemma ExactMatchFullConfidence(ids: seq<string>, names: seq<string>, distances: seq<real>, threshold: real, i: nat)
    requires |ids| == |names| == |distances|
    requires forall j :: 0 <= j < |distances| ==> distances[j] >= 0.0
    requires i < |distances| && distances[i] == 0.0
    requires threshold > 0.0
    ensures CompareFaceWithDatabase(ids, names, distances, threshold).Some?
    ensures CompareFaceWithDatabase(ids, names, distances, threshold).value.confidence == 100.0
  {
    var r := CompareFaceWithDatabase(ids, names, distances, threshold);
    assert r.Some?;
    var k :| IsFirstMin(distances, k) && distances[k] < threshold && r.value == Match(ids[k], names[k], Confidence(distances[k]));
    assert distances[k] == 0.0;
    Round2Exact(10000);
  }

  /** With non-negative distances and a threshold of at most 1, a reported
   *  confidence lies in [0, 100]. */
  lemma ConfidenceInRange(ids: seq<string>, names: seq<string>, distances: seq<real>, threshold: real)
    requires |ids| == |names| == |distances|
    requires forall j :: 0 <= j < |distances| ==> distances[j] >= 0.0
    requires threshold <= 1.0
    ensures CompareFaceWithDatabase(ids, names, distances, threshold).Some? ==>
            0.0 <= CompareFaceWithDatabase(ids, names, distances, threshold).value.confidence <= 100.0
  {
    var r := CompareFaceWithDatabase(ids, names, distances, threshold);
    if r.Some? {
      var k :| IsFirstMin(distances, k) && distances[k] < threshold && r.value == Match(ids[k], names[k], Confidence(distances[k]));
      ConfidenceBounds(distances[k]);
    }
  }

  /** A distance in [0, 1] has a confidence in [0, 100]. */
  lemma ConfidenceBounds(distance: real)
    requires 0.0 <= distance <= 1.0
    ensures 0.0 <= Confidence(distance) <= 100.0
  {
    var c := (1.0 - distance) * 100.0;
    assert 0.0 <= c <= 100.0;
    Round2Exact(0);
    Round2Exact(10000);
    Round2Monotone(0.0, c);
    Round2Monotone(c, 100.0);
  }

  /** The tuple recognize_faces_in_frame appends for one face. */
  function FaceResultOf(m: Option<Match>, location: Location): (r: FaceResult)
    ensures r.location == location
    ensures r.id.None? <==> m.None?
    ensures m.Some? ==> r.id == Some(m.value.id) && r.name == m.value.name && r.confidence == m.value.confidence
    ensures m.None? ==> r.name == "Unknown" && r.confidence == 0.0
  {
    match m
    case Some(Match(id, name, confidence)) => FaceResult(Some(id), name, location, confidence)
    case None => FaceResult(None, "Unknown", location, 0.0)
  }

  // ----------------------------------------------------------- the object

  class FaceRecognizer {
    var knownEncodings: seq<Vector>
    var knownIds: seq<string>
    var knownNames: seq<string>
    var threshold: real

    /** The three lists stay index-aligned and every vector has 128 elements. */
    ghost predicate Valid()
      reads this
    {
      && |knownEncodings| == |knownIds| == |knownNames|
      && forall k :: 0 <= k < |knownEncodings| ==> |knownEncodings[k]| == VectorSize
    }

    /** __init__ followed by its load_known_faces over `rows`. */
    constructor (recognitionThreshold: real, rows: seq<StoreRow>, students: map<string, string>)
      ensures Valid()
      ensures threshold == recognitionThreshold
      ensures knownEncodings == Encodings(KeptFaces(rows, students))
      ensures knownIds == Ids(KeptFaces(rows, students))
      ensures knownNames == Names(KeptFaces(rows, students))
    {
      knownEncodings, knownIds, knownNames := [], [], [];
      threshold := recognitionThreshold;
      new;
      var _, _ := LoadKnownFaces(rows, students);
    }

    /** load_known_faces. `rows` is what get_all_face_embeddings returned;
     *  an empty answer leaves the previous cache in place. */
    method LoadKnownFaces(rows: seq<StoreRow>, students: map<string, string>)
      returns (successful: nat, failed: nat)
      requires Valid()
      modifies this`knownEncodings, this`knownIds, this`knownNames
      ensures Valid()
      ensures rows == [] ==> knownEncodings == old(knownEncodings) && knownIds == old(knownIds)
                             && knownNames == old(knownNames)
      ensures rows != [] ==> knownEncodings == Encodings(KeptFaces(rows, students))
                             && knownIds == Ids(KeptFaces(rows, students))
                             && knownNames == Names(KeptFaces(rows, students))
      ensures rows != [] ==> successful == |knownEncodings| && successful + failed == |rows|
    {
      if rows == [] {
        return 0, 0;
      }
      knownEncodings, knownIds, knownNames := [], [], [];
      successful, failed := 0, 0;
      var i := 0;
      while i < |rows|
        invariant 0 <= i <= |rows|
        invariant knownEncodings == Encodings(KeptFaces(rows[..i], students))
        invariant knownIds == Ids(KeptFaces(rows[..i], students))
        invariant knownNames == Names(KeptFaces(rows[..i], students))
        invariant successful == |knownEncodings| && successful + failed == i
      {
        var row := rows[i];
        assert rows[..i + 1] == rows[..i] + [row];
        KeptFacesSnoc(rows[..i], row, students);
        ghost var before := KeptFaces(rows[..i], students);
        var accepted := false;
        if row.blob.Some? {
          var decoded := FromBuffer(row.blob.value);
          if decoded.Some? && |decoded.value| == VectorSize && row.studentId in students {
            var name := students[row.studentId];
            ghost var f := KnownFace(decoded.value, row.studentId, name);
            assert RowFace(row, students) == Some(f);
            ProjectionsSnoc(before, f);
            knownEncodings := knownEncodings + [decoded.value];
            knownIds := knownIds + [row.studentId];
            knownNames := knownNames + [name];
            accepted := true;
          }
        }
        assert !accepted ==> RowFace(row, students).None?;
        if accepted {
          successful := successful + 1;
        } else {
          failed := failed + 1;
        }
        i := i + 1;
      }
      assert rows[..i] == rows;
    }

    /** recognize_faces_in_frame. `faceDistances[f]` is face_distance of the
     *  f-th detected encoding against the cache; results pair encodings
     *  with locations as zip does. */
    method RecognizeFacesInFrame(locations: seq<Location>, faceDistances: seq<seq<real>>)
      returns (results: seq<FaceResult>)
      requires Valid()
      requires forall f :: 0 <= f < |faceDistances| ==> |faceDistances[f]| == |knownEncodings|
      ensures (knownEncodings == [] || locations == []) ==> results == []
      ensures knownEncodings != [] && locations != [] ==>
                |results| == if |locations| < |faceDistances| then |locations| else |faceDistances|
      ensures forall f :: 0 <= f < |results| ==>
                results[f] == FaceResultOf(CompareFaceWithDatabase(knownIds, knownNames, faceDistances[f], threshold), locations[f])
      ensures forall f :: 0 <= f < |results| ==>
                (results[f].id.None? <==> forall j :: 0 <= j < |knownEncodings| ==> faceDistances[f][j] >= threshold)
      ensures forall f :: 0 <= f < |results| && results[f].id.None? ==>
                results[f].name == "Unknown" && results[f].confidence == 0.0
    {
      if knownEncodings == [] || locations == [] {
        return [];
      }
      var n := if |locations| < |faceDistances| then |locations| else |faceDistances|;
      results := [];
      var f := 0;
      while f < n
        invariant 0 <= f <= n
        invariant |results| == f
        invariant forall g :: 0 <= g < f ==>
                    results[g] == FaceResultOf(CompareFaceWithDatabase(knownIds, knownNames, faceDistances[g], threshold), locations[g])
      {
        var recognized := CompareFaceWithDatabase(knownIds, knownNames, faceDistances[f], threshold);
        results := results + [FaceResultOf(recognized, locations[f])];
        f := f + 1;
      }
    }

    /** update_recognition_threshold: only values in [0.0, 1.0] are taken. */
    method UpdateRecognitionThreshold(newThreshold: real)
      modifies this`threshold
      ensures 0.0 <= newThreshold <= 1.0 ==> threshold == newThreshold
      ensures !(0.0 <= newThreshold <= 1.0) ==> threshold == old(threshold)
    {
      if 0.0 <= newThreshold <= 1.0 {
        threshold := newThreshold;
      }
    }

    /** get_statistics: the cache size, the threshold, and (id, name) pairs. */
    function GetStatistics(): (s: RecognizerStats)
      reads this
      requires Valid()
      ensures s.totalKnownFaces == |knownEncodings| == |s.knownStudents|
      ensures s.threshold == threshold
      ensures forall k :: 0 <= k < |s.knownStudents| ==> s.knownStudents[k] == (knownIds[k], knownNames[k])
    {
      RecognizerStats(|knownEncodings|, threshold,
                      seq(|knownIds|, k requires 0 <= k < |knownIds| && k < |knownNames| reads this => (knownIds[k], knownNames[k])))
    }
  }
}
