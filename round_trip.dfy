/** The two benchmarks side by side: the three strategies of each direction
    compared with one another, and any encoder's output read back by any
    decoder, on either host byte order. */
module UuidRoundTrip {
  import opened Bits
  import opened UuidCodec
  import opened UuidDeserialization
  import opened UuidSerialization

  /** The three encoders store the same 16 bytes for `uuid`: the reference
      layout. */
  method EncodersAgree(uuid: Uuid, nativeOrder: ByteOrder)
    returns (viaByteBuffer: seq<bv8>, viaVarHandle: seq<bv8>, viaUnsafe: seq<bv8>)
    ensures viaByteBuffer == viaVarHandle == viaUnsafe == Encoded(uuid)
  {
    var r := ToBytesByteBuffer(Some(uuid));
    viaByteBuffer := r.value[..];
    r := ToBytesVarHandle(Some(uuid));
    viaVarHandle := r.value[..];
    r := ToBytesUnsafe(Some(uuid), nativeOrder);
    viaUnsafe := r.value[..];
  }

  /** On every input the `ByteBuffer` decoder returns the same UUID as the
      other two and fails with the same exception class; for a wrong
      length its message is the only difference. */
  method DecodersAgreeOnAll(bytes: array?<bv8>, nativeOrder: ByteOrder) returns (r: Result<Uuid>)
    ensures FromBytesVarHandle(bytes) == FromBytesUnsafe(bytes, nativeOrder)
    ensures r.Ok? <==> FromBytesVarHandle(bytes).Ok?
    ensures r.Ok? ==> r == FromBytesVarHandle(bytes)
    ensures r.Err? ==> r.error.NullPointer? == FromBytesVarHandle(bytes).error.NullPointer?
    ensures bytes == null ==> r == FromBytesVarHandle(bytes)
    ensures bytes != null && bytes.Length != UUID_BYTES ==>
              r.error.message != FromBytesVarHandle(bytes).error.message
  {
    r := FromBytesByteBuffer(bytes);
    if bytes != null && bytes.Length != UUID_BYTES {
      assert BYTE_BUFFER_LENGTH_MESSAGE[18] != VIEW_LENGTH_MESSAGE[18];
    }
  }

  /** Each of the three encoders' arrays, read by each of the three
      decoders (`ByteBuffer`, `VarHandle`, `Unsafe`), gives `uuid` back:
      nine results, encoder by encoder. */
  method RoundTrip(uuid: Uuid, nativeOrder: ByteOrder) returns (decoded: seq<Result<Uuid>>)
    ensures |decoded| == 9
    ensures forall i :: 0 <= i < |decoded| ==> decoded[i] == Ok(uuid)
  {
    var viaByteBuffer := ToBytesByteBuffer(Some(uuid));
    var viaVarHandle := ToBytesVarHandle(Some(uuid));
    var viaUnsafe := ToBytesUnsafe(Some(uuid), nativeOrder);
    var d1 := FromBytesByteBuffer(viaByteBuffer.value);
    var d2 := FromBytesByteBuffer(viaVarHandle.value);
    var d3 := FromBytesByteBuffer(viaUnsafe.value);
    decoded := [d1, FromBytesVarHandle(viaByteBuffer.value), FromBytesUnsafe(viaByteBuffer.value, nativeOrder),
                d2, FromBytesVarHandle(viaVarHandle.value), FromBytesUnsafe(viaVarHandle.value, nativeOrder),
                d3, FromBytesVarHandle(viaUnsafe.value), FromBytesUnsafe(viaUnsafe.value, nativeOrder)];
  }
}
