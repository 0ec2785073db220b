/** The stored form of a face vector: numpy's float32 buffer layout.
 *  A float32 is represented by its four little-endian bytes, so that
 *  `ndarray.tobytes()` and `np.frombuffer(blob, dtype=np.float32)` can be
 *  stated exactly without interpreting floating-point values. */
module Embedding {
  import opened Common

  newtype byte = x: int | 0 <= x < 256

  /** One float32 element as its four bytes, lowest first. */
  datatype Float32 = Float32(b0: byte, b1: byte, b2: byte, b3: byte)

  /** A face vector of any length; a well-formed one has VectorSize elements. */
  type Vector = seq<Float32>

  const VectorSize: nat := 128
  const BlobSize: nat := 512

  /** ndarray.tobytes() of a float32 array. */
  function ToBytes(v: Vector): (r: seq<byte>)
    ensures |r| == 4 * |v|
  {
    if v == [] then [] else [v[0].b0, v[0].b1, v[0].b2, v[0].b3] + ToBytes(v[1..])
  }

  /** np.frombuffer(blob, dtype=np.float32): None where numpy raises
   *  ValueError because the length is not a multiple of the element size. */
  function FromBuffer(blob: seq<byte>): (r: Option<Vector>)
    ensures r.Some? <==> |blob| % 4 == 0
    ensures r.Some? ==> 4 * |r.value| == |blob|
  {
    if blob == [] then Some([])
    else if |blob| < 4 then None
    else
      match FromBuffer(blob[4..])
      case None => None
      case Some(rest) => Some([Float32(blob[0], blob[1], blob[2], blob[3])] + rest)
  }

  /** Decoding an encoded vector gives the vector back, element for element. */
  lemma {:induction false} DecodeEncode(v: Vector)
    ensures FromBuffer(ToBytes(v)) == Some(v)
  {
    if v != [] {
      var b := ToBytes(v);
      assert b[4..] == ToBytes(v[1..]);
      DecodeEncode(v[1..]);
      assert [v[0]] + v[1..] == v;
    }
  }

  /** Encoding a decoded buffer gives the buffer back. */
  lemma {:induction false} EncodeDecode(blob: seq<byte>)
    requires FromBuffer(blob).Some?
    ensures ToBytes(FromBuffer(blob).value) == blob
  {
    if blob != [] {
      assert |blob| >= 4 && FromBuffer(blob[4..]).Some?;
      var rest := FromBuffer(blob[4..]).value;
      EncodeDecode(blob[4..]);
      var v := [Float32(blob[0], blob[1], blob[2], blob[3])] + rest;
      assert FromBuffer(blob).value == v;
      assert v[1..] == rest;
      assert blob == [blob[0], blob[1], blob[2], blob[3]] + blob[4..];
    }
  }

  /** The recognizer's and embedder's acceptance test: the blob decodes to
   *  an array of shape (128,). */
  predicate DecodesToVector(blob: seq<byte>)
  {
    var d := FromBuffer(blob);
    d.Some? && |d.value| == VectorSize
  }

  /** Shape (128,) after decoding is exactly a 512-byte blob. */
  lemma DecodesToVectorIff(blob: seq<byte>)
    ensures DecodesToVector(blob) <==> |blob| == BlobSize
  {
  }
}
