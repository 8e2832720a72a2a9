/**
  The storage format of an embedding: `struct.pack(f'{n}f', *embedding)`
  when a chunk is uploaded, and `struct.unpack(f'{n}f', blob)` with
  `n = len(blob) // struct.calcsize('f')` when the corpus is read back.
  How a value becomes four bytes (IEEE single precision, with rounding) is
  not modelled: the codec is a pair of parameters, and what is proved is
  the layout, one four-byte word per value in order.
 */
module VectorBlob {
  import opened Results
  import opened Similarity

  newtype byte = x: int | 0 <= x < 256

  /** `struct.calcsize('f')`. */
  const FloatSize: nat := 4

  /** The bytes one packed value occupies. */
  type Word = w: seq<byte> | |w| == FloatSize witness [0, 0, 0, 0]

  /**
    `struct.error`: the buffer is not exactly `n` words long.  CPython's
    message names the required size; the given length is kept alongside.
   */
  datatype StructError = BufferSizeMismatch(required: nat, given: nat)

  /** `struct.pack(f'{len(v)}f', *v)`, one `encode`d word per value. */
  function Pack(v: Vector, encode: real -> Word): (blob: seq<byte>)
    ensures |blob| == FloatSize * |v|
    ensures forall i :: 0 <= i < |v| ==>
              blob[FloatSize * i..FloatSize * i + FloatSize] == encode(v[i])
  {
    if v == [] then []
    else
      var rest := Pack(v[1..], encode);
      var blob := encode(v[0]) + rest;
      assert forall i :: 1 <= i < |v| ==>
               blob[FloatSize * i..FloatSize * i + FloatSize]
               == rest[FloatSize * (i - 1)..FloatSize * (i - 1) + FloatSize];
      blob
  }

  /** Word `i` of a blob. */
  function WordAt(blob: seq<byte>, i: nat): Word
    requires FloatSize * i + FloatSize <= |blob|
  {
    blob[FloatSize * i..FloatSize * i + FloatSize]
  }

  /**
    The read side of `get_embeddings_from_db`: `num_floats` is
    `len(blob) // 4`, and `struct.unpack` raises unless the blob is exactly
    that many words long.
   */
  function Unpack(blob: seq<byte>, decode: Word -> real): (r: Result<Vector, StructError>)
    ensures r.Ok? <==> |blob| % FloatSize == 0
    ensures r.Ok? ==> |r.value| == |blob| / FloatSize
    ensures r.Ok? ==> forall i :: 0 <= i < |r.value| ==> r.value[i] == decode(WordAt(blob, i))
    ensures r.Err? ==> r.error == BufferSizeMismatch(FloatSize * (|blob| / FloatSize), |blob|)
  {
    var n := |blob| / FloatSize;
    if |blob| != FloatSize * n then Err(BufferSizeMismatch(FloatSize * n, |blob|))
    else Ok(seq(n, i requires 0 <= i < n => decode(WordAt(blob, i))))
  }

  /**
    A packed embedding of `n` values is `4n` bytes, reads back as `n`
    values, and value `i` read back is the decoding of the word value `i`
    was encoded to.
   */
  lemma PackThenUnpack(v: Vector, encode: real -> Word, decode: Word -> real)
    ensures |Pack(v, encode)| == 4 * |v|
    ensures Unpack(Pack(v, encode), decode).Ok?
    ensures |Unpack(Pack(v, encode), decode).value| == |v|
    ensures forall i :: 0 <= i < |v| ==>
              Unpack(Pack(v, encode), decode).value[i] == decode(encode(v[i]))
  {
    var blob := Pack(v, encode);
    assert |blob| / FloatSize == |v|;
  }
}
