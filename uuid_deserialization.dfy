/** `UuidDeserializationBenchmark`: three ways of turning a 16-byte
    `byte[]` into a `UUID`. Each throws `NullPointerException` for a `null`
    array and `IllegalArgumentException` for any length other than 16
    before reading anything (the `ByteBuffer` decoder's length message is
    worded differently from the other two), and otherwise reads the two halves big-endian.
    A Java `byte[]` is an `array?<bv8>`; the decoders only read it. */
module UuidDeserialization {
  import opened Bits
  import opened UuidCodec
  import opened ByteBuffers

  /** `uuidFromBytes_ByteBuffer`: wraps the array and calls `getLong` twice;
      the first call, which moves the position to 8, gives the most
      significant half. */
  method FromBytesByteBuffer(bytes: array?<bv8>) returns (r: Result<Uuid>)
    ensures bytes == null ==> r == Err(NullPointer(BYTES_NULL_MESSAGE))
    ensures bytes != null && bytes.Length != UUID_BYTES ==> r == Err(IllegalArgument(BYTE_BUFFER_LENGTH_MESSAGE))
    ensures bytes != null && bytes.Length == UUID_BYTES ==> r == Ok(Decoded(bytes[..]))
  {
    if bytes == null {
      return Err(NullPointer(BYTES_NULL_MESSAGE));
    }
    if bytes.Length != UUID_BYTES {
      return Err(IllegalArgument(BYTE_BUFFER_LENGTH_MESSAGE));
    }
    DecodedByTwoReads(bytes[..]);
    var buffer := new ByteBuffer.Wrap(bytes);
    var mostSigBits := buffer.GetLong();
    var leastSigBits := buffer.GetLong();
    return Ok(Uuid(mostSigBits, leastSigBits));
  }

  /** `uuidFromBytes_VarHandle`: big-endian long-view reads at indices 0
      and 8. */
  function FromBytesVarHandle(bytes: array?<bv8>): (r: Result<Uuid>)
    reads bytes
    ensures bytes == null ==> r == Err(NullPointer(BYTES_NULL_MESSAGE))
    ensures bytes != null && bytes.Length != UUID_BYTES ==> r == Err(IllegalArgument(VIEW_LENGTH_MESSAGE))
    ensures bytes != null && bytes.Length == UUID_BYTES ==> r == Ok(Decoded(bytes[..]))
  {
    if bytes == null then Err(NullPointer(BYTES_NULL_MESSAGE))
    else if bytes.Length != UUID_BYTES then Err(IllegalArgument(VIEW_LENGTH_MESSAGE))
    else
      DecodedByTwoReads(bytes[..]);
      Ok(Uuid(GetLongBigEndian(bytes[..], 0), GetLongBigEndian(bytes[..], LONG_BYTES)))
  }

  /** `uuidFromBytes_Unsafe`: native-order reads at offsets 0 and 8, each
      passed through `tryReverseBytes`. */
  function FromBytesUnsafe(bytes: array?<bv8>, nativeOrder: ByteOrder): (r: Result<Uuid>)
    reads bytes
    ensures bytes == null ==> r == Err(NullPointer(BYTES_NULL_MESSAGE))
    ensures bytes != null && bytes.Length != UUID_BYTES ==> r == Err(IllegalArgument(VIEW_LENGTH_MESSAGE))
    ensures bytes != null && bytes.Length == UUID_BYTES ==> r == Ok(Decoded(bytes[..]))
  {
    if bytes == null then Err(NullPointer(BYTES_NULL_MESSAGE))
    else if bytes.Length != UUID_BYTES then Err(IllegalArgument(VIEW_LENGTH_MESSAGE))
    else
      DecodedByTwoReads(bytes[..]);
      UnsafeReadIsBigEndian(bytes[..], 0, nativeOrder);
      UnsafeReadIsBigEndian(bytes[..], LONG_BYTES, nativeOrder);
      Ok(Uuid(TryReverseBytes(GetLongNative(bytes[..], 0, nativeOrder), nativeOrder),
              TryReverseBytes(GetLongNative(bytes[..], LONG_BYTES, nativeOrder), nativeOrder)))
  }

  /** The two decoders written as functions agree on every input, on either
      host; `FromBytesByteBuffer` has the same contract as both. */
  lemma DecodersAgree(bytes: array?<bv8>, nativeOrder: ByteOrder)
    ensures FromBytesVarHandle(bytes) == FromBytesUnsafe(bytes, nativeOrder)
  {
  }

  /** Re-encoding what a decoder produced from 16 bytes gives back exactly
      those bytes. */
  lemma EncodeAfterDecode(bytes: array<bv8>, nativeOrder: ByteOrder)
    requires bytes.Length == UUID_BYTES
    ensures FromBytesVarHandle(bytes).Ok? && Encoded(FromBytesVarHandle(bytes).value) == bytes[..]
    ensures FromBytesUnsafe(bytes, nativeOrder).Ok? && Encoded(FromBytesUnsafe(bytes, nativeOrder).value) == bytes[..]
  {
    EncodedDecoded(bytes[..]);
  }
}
