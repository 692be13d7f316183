/** `UuidSerializationBenchmark`: three ways of turning a `UUID` into a
    newly allocated 16-byte `byte[]`. Each throws `NullPointerException` for
    a `null` UUID, and otherwise writes the most significant half
    big-endian into bytes 0 to 7 and then the least significant half
    big-endian into bytes 8 to 15; the second write leaves the first eight
    bytes alone. A `UUID` reference that may be `null` is an
    `Option<Uuid>`. */
module UuidSerialization {
  import opened Bits
  import opened UuidCodec
  import opened ByteBuffers

  /** `uuidToBytes_ByteBuffer`: wraps a new array and calls `putLong` twice;
      the first call moves the position to 8. */
  method ToBytesByteBuffer(uuid: Option<Uuid>) returns (r: Result<array<bv8>>)
    ensures uuid.None? ==> r == Err(NullPointer(UUID_NULL_MESSAGE))
    ensures uuid.Some? ==> r.Ok? && fresh(r.value) && r.value.Length == UUID_BYTES
    ensures uuid.Some? ==> r.Ok? && r.value[..] == Encoded(uuid.value)
  {
    if uuid.None? {
      return Err(NullPointer(UUID_NULL_MESSAGE));
    }
    var bytes := new bv8[UUID_BYTES];
    var buffer := new ByteBuffer.Wrap(bytes);
    buffer.PutLong(uuid.value.mostSigBits);
    buffer.PutLong(uuid.value.leastSigBits);
    return Ok(buffer.Array());
  }

  /** `uuidToBytes_VarHandle`: big-endian long-view writes at indices 0
      and 8. */
  method ToBytesVarHandle(uuid: Option<Uuid>) returns (r: Result<array<bv8>>)
    ensures uuid.None? ==> r == Err(NullPointer(UUID_NULL_MESSAGE))
    ensures uuid.Some? ==> r.Ok? && fresh(r.value) && r.value.Length == UUID_BYTES
    ensures uuid.Some? ==> r.Ok? && r.value[..] == Encoded(uuid.value)
  {
    if uuid.None? {
      return Err(NullPointer(UUID_NULL_MESSAGE));
    }
    var bytes := new bv8[UUID_BYTES];
    SetLongBigEndian(bytes, 0, uuid.value.mostSigBits);
    SetLongBigEndian(bytes, LONG_BYTES, uuid.value.leastSigBits);
    return Ok(bytes);
  }

  /** `uuidToBytes_Unsafe`: each half passed through `tryReverseBytes`,
      then a native-order write at offsets 0 and 8. */
  method ToBytesUnsafe(uuid: Option<Uuid>, nativeOrder: ByteOrder) returns (r: Result<array<bv8>>)
    ensures uuid.None? ==> r == Err(NullPointer(UUID_NULL_MESSAGE))
    ensures uuid.Some? ==> r.Ok? && fresh(r.value) && r.value.Length == UUID_BYTES
    ensures uuid.Some? ==> r.Ok? && r.value[..] == Encoded(uuid.value)
  {
    if uuid.None? {
      return Err(NullPointer(UUID_NULL_MESSAGE));
    }
    var bytes := new bv8[UUID_BYTES];
    PutLongNative(bytes, 0, TryReverseBytes(uuid.value.mostSigBits, nativeOrder), nativeOrder);
    PutLongNative(bytes, LONG_BYTES, TryReverseBytes(uuid.value.leastSigBits, nativeOrder), nativeOrder);
    UnsafeWriteIsBigEndian(uuid.value.mostSigBits, nativeOrder);
    UnsafeWriteIsBigEndian(uuid.value.leastSigBits, nativeOrder);
    return Ok(bytes);
  }
}
