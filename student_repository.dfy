/** database/student_repository.py: the write guard of add_face_embedding
 *  and the row filter of get_all_face_embeddings over the KhuonMat table. */
module StudentRepo {
  import opened Common
  import opened Embedding

  /** The Python value passed as DuLieuMaHoa to add_face_embedding. An
   *  ndarray is given by the float32 elements `astype(np.float32)` yields. */
  datatype Payload =
    | PyBytes(data: seq<byte>)
    | PyByteArray(data: seq<byte>)
    | PyMemoryView(data: seq<byte>)
    | NdArray(elems: Vector)
    | PyStr(text: string)
    | PyOther

  /** The value the database driver returns for the DuLieuMaHoa column. */
  datatype Cell =
    | BytesCell(data: seq<byte>)
    | MemoryViewCell(data: seq<byte>)
    | StrCell(text: string)
    | OtherCell

  /** One row of the KhuonMat table. */
  datatype FaceRow = FaceRow(studentId: string, imagePath: string, blob: Cell)

  /** Why add_face_embedding refused a payload before reaching the database. */
  datatype GuardError = NotBytes | WrongLength(length: nat)

  /** The conversion step: ndarray and memoryview become bytes; bytes and
   *  bytearray pass through; anything else stays a non-bytes value (None). */
  function AsBytes(p: Payload): (r: Option<seq<byte>>)
    ensures r.None? <==> p.PyStr? || p.PyOther?
    ensures p.NdArray? ==> |r.value| == 4 * |p.elems| && FromBuffer(r.value) == Some(p.elems)
  {
    DecodeEncode(if p.NdArray? then p.elems else []);

    match p
    case PyBytes(d) => Some(d)
    case PyByteArray(d) => Some(d)
    case PyMemoryView(d) => Some(d)
    case NdArray(e) => Some(ToBytes(e))
    case PyStr(_) => None
    case PyOther => None
  }

  /** The guard chain of add_face_embedding: the bytes that would be
   *  inserted, or the reason the call returns False without an insert. */
  function ValidateEmbedding(p: Payload): (r: Result<seq<byte>, GuardError>)
    ensures r.Success? ==> |r.value| == BlobSize
    ensures (p.PyStr? || p.PyOther?) ==> r == Failure(NotBytes)
    ensures (p.PyBytes? || p.PyByteArray? || p.PyMemoryView?) ==>
              (r.Success? <==> |p.data| == BlobSize) && (r.Success? ==> r.value == p.data)
    ensures p.NdArray? ==> (r.Success? <==> |p.elems| == VectorSize)
    ensures p.NdArray? && r.Success? ==> FromBuffer(r.value) == Some(p.elems)
  {
    match AsBytes(p)
    case None => Failure(NotBytes)
    case Some(b) =>
      if |b| != BlobSize then Failure(WrongLength(|b|))
      else if p.NdArray? then DecodeEncode(p.elems); Success(b)
      else Success(b)
  }

  /** The read side's normalisation of a cell: bytes for bytes and
   *  memoryview, None (skipped with a warning) for str and other types. */
  function CellBytes(c: Cell): Option<seq<byte>>
  {
    match c
    case BytesCell(d) => Some(d)
    case MemoryViewCell(d) => Some(d)
    case StrCell(_) => None
    case OtherCell => None
  }

  /** A row get_all_face_embeddings keeps. */
  predicate KeepsRow(row: FaceRow)
    ensures KeepsRow(row) ==> row.blob.BytesCell? || row.blob.MemoryViewCell?
    ensures KeepsRow(row) ==> DecodesToVector(CellBytes(row.blob).value)
  {
    DecodesToVectorIff(if CellBytes(row.blob).Some? then CellBytes(row.blob).value else []);
    CellBytes(row.blob).Some? && |CellBytes(row.blob).value| == BlobSize
  }

  /** The (MaSV_FK, bytes) pairs get_all_face_embeddings returns, in table order. */
  function ValidEmbeddings(rows: seq<FaceRow>): (r: seq<(string, seq<byte>)>)
    ensures |r| <= |rows|
    ensures forall k :: 0 <= k < |r| ==> |r[k].1| == BlobSize
  {
    if rows == [] then []
    else
      var rest := ValidEmbeddings(rows[1..]);
      if KeepsRow(rows[0]) then [(rows[0].studentId, CellBytes(rows[0].blob).value)] + rest
      else rest
  }

  /** Filtering distributes over concatenation, so the original row order is kept. */
  lemma {:induction false} ValidEmbeddingsAppend(a: seq<FaceRow>, b: seq<FaceRow>)
    ensures ValidEmbeddings(a + b) == ValidEmbeddings(a) + ValidEmbeddings(b)
  {
    if a == [] {
      assert a + b == b;
    } else {
      assert (a + b)[1..] == a[1..] + b;
      ValidEmbeddingsAppend(a[1..], b);
    }
  }

  /** A pair is returned exactly when some row holds it as a 512-byte
   *  bytes or memoryview cell. */
  lemma {:induction false} ValidEmbeddingsMember(rows: seq<FaceRow>, id: string, data: seq<byte>)
    ensures (id, data) in ValidEmbeddings(rows) <==>
            exists i :: 0 <= i < |rows| && rows[i].studentId == id && KeepsRow(rows[i])
                        && CellBytes(rows[i].blob) == Some(data)
  {
    if rows != [] {
      ValidEmbeddingsMember(rows[1..], id, data);
      if (id, data) in ValidEmbeddings(rows[1..]) {
        var i :| 0 <= i < |rows[1..]| && rows[1..][i].studentId == id && KeepsRow(rows[1..][i])
                 && CellBytes(rows[1..][i].blob) == Some(data);
        assert rows[i + 1] == rows[1..][i];
      }
      if exists i :: 0 <= i < |rows| && rows[i].studentId == id && KeepsRow(rows[i])
                     && CellBytes(rows[i].blob) == Some(data) {
        var i :| 0 <= i < |rows| && rows[i].studentId == id && KeepsRow(rows[i])
                 && CellBytes(rows[i].blob) == Some(data);
        if i > 0 {
          assert rows[1..][i - 1] == rows[i];
        }
      }
    }
  }

  /** Every blob the write guard accepts also passes the read-side filter:
   *  a successful insert shows up, last, in the next read. */
  lemma WrittenRowIsRead(rows: seq<FaceRow>, id: string, path: string, p: Payload)
    requires ValidateEmbedding(p).Success?
    ensures ValidEmbeddings(rows + [FaceRow(id, path, BytesCell(ValidateEmbedding(p).value))])
            == ValidEmbeddings(rows) + [(id, ValidateEmbedding(p).value)]
  {
    var row := FaceRow(id, path, BytesCell(ValidateEmbedding(p).value));
    ValidEmbeddingsAppend(rows, [row]);
    assert [row][1..] == [];
  }

  /** get_all_face_embeddings as written, whatever the table holds: the
   *  first statement of its try reads `self.conn`, an attribute that no
   *  code assigns (the base class sets only `conn_manager`), so the
   *  AttributeError reaches the handler, which answers []. */
  function ReadAsWritten(rows: seq<FaceRow>): (r: seq<(string, seq<byte>)>)
    ensures |r| == 0
  {
    []
  }

  /** A face written through the guard is never read back as written,
   *  although the row filter keeps it: the as-written read answers [],
   *  while the intended read ends with the new pair. */
  lemma WrittenFaceNeverReadBack(rows: seq<FaceRow>, id: string, path: string, p: Payload)
    requires ValidateEmbedding(p).Success?
    ensures ReadAsWritten(rows + [FaceRow(id, path, BytesCell(ValidateEmbedding(p).value))]) == []
    ensures var read := ValidEmbeddings(rows + [FaceRow(id, path, BytesCell(ValidateEmbedding(p).value))]);
            read != [] && read[|read| - 1] == (id, ValidateEmbedding(p).value)
  {
    WrittenRowIsRead(rows, id, path, p);
  }

  /** The student repository's view of the KhuonMat table. */
  class StudentRepository {
    /** The rows of KhuonMat, in insertion order. */
    var faceRows: seq<FaceRow>

    constructor (rows: seq<FaceRow>)
      ensures faceRows == rows
    {
      faceRows := rows;
    }

    /** add_face_embedding. `executeOk` is whether execute_query reached
     *  the database and committed. */
    method AddFaceEmbedding(maSv: string, imagePath: string, payload: Payload, executeOk: bool)
      returns (ok: bool)
      modifies this
      ensures ok <==> ValidateEmbedding(payload).Success? && executeOk
      ensures ok ==> faceRows == old(faceRows) + [FaceRow(maSv, imagePath, BytesCell(ValidateEmbedding(payload).value))]
      ensures !ok ==> faceRows == old(faceRows)
    {
      var checked := ValidateEmbedding(payload);
      if checked.Failure? {
        return false;
      }
      if executeOk {
        faceRows := faceRows + [FaceRow(maSv, imagePath, BytesCell(checked.value))];
      }
      ok := executeOk;
    }

    /** get_all_face_embeddings as evidently intended, reading the table
     *  through the repository's connection. `readOk` is false when the
     *  SELECT raises, in which case the method answers with an empty list;
     *  as written it always does (ReadAsWritten). */
    method GetAllFaceEmbeddings(readOk: bool) returns (result: seq<(string, seq<byte>)>)
      ensures readOk ==> result == ValidEmbeddings(faceRows)
      ensures !readOk ==> result == []
    {
      if !readOk {
        return [];
      }
      var processed: seq<(string, seq<byte>)> := [];
      var i := 0;
      while i < |faceRows|
        invariant 0 <= i <= |faceRows|
        invariant processed == ValidEmbeddings(faceRows[..i])
      {
        var row := faceRows[i];
        var isBytes := false;
        var bytes: seq<byte> := [];
        match row.blob {
          case MemoryViewCell(d) => isBytes, bytes := true, d;
          case BytesCell(d) => isBytes, bytes := true, d;
          case StrCell(_) =>
          case OtherCell =>
        }
        if isBytes && |bytes| == BlobSize {
          processed := processed + [(row.studentId, bytes)];
        }
        assert [row][1..] == [];
        assert faceRows[..i + 1] == faceRows[..i] + [row];
        ValidEmbeddingsAppend(faceRows[..i], [row]);
        i := i + 1;
      }
      assert faceRows[..i] == faceRows;
      result := processed;
    }
  }
}
