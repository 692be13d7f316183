/** What both UUID benchmarks share: `java.util.UUID` as its two 64-bit
    halves, the exceptions the codecs throw, `UUID_BYTES`, the byte-order
    fix-up `tryReverseBytes` of the `Unsafe` strategy, and the reference
    16-byte layout every strategy must produce or accept. */
module UuidCodec {
  import opened Bits

  /** A `java.util.UUID`: its most and least significant 64 bits. */
  datatype Uuid = Uuid(mostSigBits: bv64, leastSigBits: bv64)

  /** The exceptions the codecs throw on bad input, with their messages. */
  datatype Error = NullPointer(message: string) | IllegalArgument(message: string)

  /** A value, or the exception thrown instead of returning one. */
  datatype Result<T> = Ok(value: T) | Err(error: Error)

  /** A reference that may be `null`. */
  datatype Option<T> = None | Some(value: T)

  /** `Long.BYTES << 1`: two longs' worth of bytes. */
  const UUID_BYTES: nat := LONG_BYTES * 2

  /** The message of every decoder's `NullPointerException`. */
  const BYTES_NULL_MESSAGE: string := "bytes is null"

  /** The message of every encoder's `NullPointerException`. */
  const UUID_NULL_MESSAGE: string := "uuid is null"

  /** The `ByteBuffer` decoder's `IllegalArgumentException` message; Java's
      string concatenation renders `UUID_BYTES` as "16". */
  const BYTE_BUFFER_LENGTH_MESSAGE: string := "Length of bytes should be 16"

  /** The `VarHandle` and `Unsafe` decoders' `IllegalArgumentException`
      message, worded differently from the `ByteBuffer` decoder's. */
  const VIEW_LENGTH_MESSAGE: string := "Length of bytes length should be 16"

  /** Reference decoding: bytes 0 to 7 read big-endian are the most
      significant half, bytes 8 to 15 read big-endian the least. */
  function Decoded(b: seq<bv8>): Uuid
    requires |b| == UUID_BYTES
  {
    Uuid(BigEndianValue(b[..LONG_BYTES]), BigEndianValue(b[LONG_BYTES..]))
  }

  /** The reference decoding is two big-endian long reads, at indices 0 and
      8. */
  lemma DecodedByTwoReads(b: seq<bv8>)
    requires |b| == UUID_BYTES
    ensures Decoded(b) == Uuid(GetLongBigEndian(b, 0), GetLongBigEndian(b, LONG_BYTES))
  {
    assert b[0..LONG_BYTES] == b[..LONG_BYTES];
    assert b[LONG_BYTES..UUID_BYTES] == b[LONG_BYTES..];
  }

  /** Reference encoding: the most significant half big-endian, then the
      least significant half big-endian. Decoding it gives `u` back. */
  function Encoded(u: Uuid): (b: seq<bv8>)
    ensures |b| == UUID_BYTES && Decoded(b) == u
  {
    var b := BigEndianBytes(u.mostSigBits) + BigEndianBytes(u.leastSigBits);
    assert b[..LONG_BYTES] == BigEndianBytes(u.mostSigBits);
    assert b[LONG_BYTES..] == BigEndianBytes(u.leastSigBits);
    b
  }

  /** Encoding what 16 bytes decode to gives back those bytes: the layout
      has no spare bits and no two byte strings decode alike. */
  lemma EncodedDecoded(b: seq<bv8>)
    requires |b| == UUID_BYTES
    ensures Encoded(Decoded(b)) == b
  {
    BigEndianBytesOfValue(b[..LONG_BYTES]);
    BigEndianBytesOfValue(b[LONG_BYTES..]);
    assert b == b[..LONG_BYTES] + b[LONG_BYTES..];
  }

  /** The layout on concrete halves: 0x0102030405060708 and
      0x090A0B0C0D0E0F10 are the bytes 01 to 10 in order, and the nil UUID
      is sixteen zero bytes. */
  lemma EncodedExamples()
    ensures Encoded(Uuid(0x0102_0304_0506_0708, 0x090A_0B0C_0D0E_0F10))
         == [0x01, 0x02, 0x03, 0x04, 0x05, 0x06, 0x07, 0x08,
             0x09, 0x0A, 0x0B, 0x0C, 0x0D, 0x0E, 0x0F, 0x10]
    ensures Encoded(Uuid(0, 0)) == seq(UUID_BYTES, _ => 0)
  {
  }

  /** `SHOULD_REVERSE_UNSAFE_BYTES`: true exactly on a little-endian host. */
  predicate ShouldReverseUnsafeBytes(nativeOrder: ByteOrder) {
    nativeOrder == LittleEndian
  }

  /** `tryReverseBytes`: `Long.reverseBytes` on a little-endian host, the
      value unchanged on a big-endian one. */
  function TryReverseBytes(value: bv64, nativeOrder: ByteOrder): bv64 {
    if ShouldReverseUnsafeBytes(nativeOrder) then ReverseBytes(value) else value
  }

  /** `tryReverseBytes` is the identity on a big-endian host and undoes
      itself on either host. */
  lemma TryReverseBytesInvolution(value: bv64, nativeOrder: ByteOrder)
    ensures nativeOrder == BigEndian ==> TryReverseBytes(value, nativeOrder) == value
    ensures TryReverseBytes(TryReverseBytes(value, nativeOrder), nativeOrder) == value
  {
    ReverseBytesInvolution(value);
  }

  /** A native-order `Unsafe.getLong` followed by `tryReverseBytes` reads the
      same long as a big-endian read, on either host. */
  lemma UnsafeReadIsBigEndian(s: seq<bv8>, index: nat, nativeOrder: ByteOrder)
    requires index + LONG_BYTES <= |s|
    ensures TryReverseBytes(GetLongNative(s, index, nativeOrder), nativeOrder) == GetLongBigEndian(s, index)
  {
    if nativeOrder == LittleEndian {
      var t := s[index..index + LONG_BYTES];
      LittleEndianValueOfEight(t);
      BigEndianValueOfEight(t);
      ReverseBytesOfAssembled(t[7], t[6], t[5], t[4], t[3], t[2], t[1], t[0]);
    }
  }

  /** `tryReverseBytes` followed by a native-order `Unsafe.putLong` stores the
      same bytes as a big-endian write, on either host. */
  lemma UnsafeWriteIsBigEndian(value: bv64, nativeOrder: ByteOrder)
    ensures NativeBytes(TryReverseBytes(value, nativeOrder), nativeOrder) == BigEndianBytes(value)
  {
  }
}
