# UUID binary codec of padla-benchmarks, in Dafny

The repository benchmarks three ways of converting a `java.util.UUID` to and
from a 16-byte `byte[]`: through a `ByteBuffer`, through a big-endian
`VarHandle` long view, and through `sun.misc.Unsafe` raw memory access with
a software byte-order fix-up. This project models those six conversions and
proves that they all use one layout: bytes 0 to 7 hold the most significant
64 bits big-endian, and bytes 8 to 15 hold the least significant 64 bits
big-endian.

Files and modules:

- `bits.dfy` (`Bits`): a Java `long` as a `bv64`, a `byte` as a `bv8`.
  `BigEndianValue`, `LittleEndianValue` and `Reversed` are recursive
  reference definitions of "these bytes read most/least significant byte
  first" and "these bytes backwards". Beside them are the fixed-shift views
  the codec uses: the big-endian read (`GetLongBigEndian`, used by
  `ByteBuffer.getLong` and the `VarHandle` view), the native-order read
  `GetLongNative` (`Unsafe.getLong`), the bytes a big-endian or
  native-order write stores, `Long.reverseBytes`, and the two array writes
  `SetLongBigEndian` (`VarHandle.set`) and `PutLongNative`
  (`Unsafe.putLong`).
- `byte_buffer.dfy` (`ByteBuffers`): a `ByteBuffer` class that wraps an
  array. Its `position` field is advanced by `GetLong` and `PutLong`, so the
  order of the two calls decides which half goes where.
- `uuid_codec.dfy` (`UuidCodec`): the `Uuid` datatype, the two exceptions,
  `UUID_BYTES`, `SHOULD_REVERSE_UNSAFE_BYTES` (`ShouldReverseUnsafeBytes`),
  `tryReverseBytes` (`TryReverseBytes`; it is the same code in both Java
  files), the reference layout `Encoded`/`Decoded`, and the lemmas on
  them.
- `uuid_deserialization.dfy` (`UuidDeserialization`): the three
  `uuidFromBytes_*` decoders. The `ByteBuffer` decoder is a method, because
  its buffer's position changes between the two reads. The other two are
  functions that read the array.
- `uuid_serialization.dfy` (`UuidSerialization`): the three
  `uuidToBytes_*` encoders. Each is a method that allocates a fresh
  16-byte array and fills it with two writes.
- `round_trip.dfy` (`UuidRoundTrip`): client methods that compare the
  strategies using only their contracts. `EncodersAgree` shows the three
  encoders produce the same bytes. `DecodersAgreeOnAll` compares the
  decoders on every input. `RoundTrip` gives the nine encoder/decoder
  results.

How Java is represented:

- A `null` `byte[]` is a `null` `array?<bv8>`.
- A `null` `UUID` is `Option.None`.
- An exception is `Result.Err`: `NullPointer` or `IllegalArgument`, each
  with its message. The decoders' null message is "bytes is null" and the
  encoders' is "uuid is null". The `ByteBuffer` decoder's length message is
  "Length of bytes should be 16". The other two decoders say "Length of
  bytes length should be 16".
- The host's native byte order is a `ByteOrder` parameter. It stands for
  `ByteOrder.nativeOrder()`, which the Java code reads once into the static
  flag. So every `Unsafe` result is proved for both orders.
- `Unsafe.ARRAY_BYTE_BASE_OFFSET + k` is array index `k`.

## Model

| member | source | states |
|---|---|---|
| `Bits.GetLongBigEndian` | src/main/java/ru/progrm_jarvis/benchmark/padla/util/UuidDeserializationBenchmark.java:93-96 | the long read at an index is the eight bytes from there taken most significant first (the reference `BigEndianValue`) |
| `Bits.GetLongNative` | src/main/java/ru/progrm_jarvis/benchmark/padla/util/UuidDeserializationBenchmark.java:105-108 | a native-order read is the big-endian reading of the eight bytes on a big-endian host and the little-endian reading on a little-endian host |
| `Bits.BigEndianBytes` | src/main/java/ru/progrm_jarvis/benchmark/padla/util/UuidSerializationBenchmark.java:82-83 | the eight bytes a big-endian write stores, which read back big-endian to the value written |
| `Bits.LittleEndianBytes` | src/main/java/ru/progrm_jarvis/benchmark/padla/util/UuidSerializationBenchmark.java:92-99 | the eight bytes a little-endian host's native write stores, which read back little-endian to the value written |
| `Bits.NativeBytes` | src/main/java/ru/progrm_jarvis/benchmark/padla/util/UuidSerializationBenchmark.java:92-99 | the bytes `Unsafe.putLong` stores read back to the value in the host's own order, on either host |
| `Bits.BigEndianBytesOfValue` | src/main/java/ru/progrm_jarvis/benchmark/padla/util/UuidDeserializationBenchmark.java:93-96 | eight bytes are exactly the big-endian bytes of the long they read as, so no two byte strings read alike |
| `Bits.LittleEndianIsReversedBigEndian` | src/main/java/ru/progrm_jarvis/benchmark/padla/util/UuidDeserializationBenchmark.java:105-108 | reading bytes least significant first is the same as reading them backwards most significant first |
| `Bits.ReverseBytesReversesOrder` | src/main/java/ru/progrm_jarvis/benchmark/padla/util/UuidDeserializationBenchmark.java:112 | `Long.reverseBytes` turns the long made of bytes t into the long made of t reversed |
| `Bits.ReverseBytesInvolution` | src/main/java/ru/progrm_jarvis/benchmark/padla/util/UuidDeserializationBenchmark.java:112 | reversing the bytes of a long twice gives the long back |
| `Bits.SetLongBigEndian` | src/main/java/ru/progrm_jarvis/benchmark/padla/util/UuidSerializationBenchmark.java:82-83 | a big-endian view write stores the value's big-endian bytes at the index and changes no other element |
| `Bits.PutLongNative` | src/main/java/ru/progrm_jarvis/benchmark/padla/util/UuidSerializationBenchmark.java:92-99 | `Unsafe.putLong` stores the value's native-order bytes at the offset and changes no other element |
| `ByteBuffers.ByteBuffer.Wrap` | src/main/java/ru/progrm_jarvis/benchmark/padla/util/UuidDeserializationBenchmark.java:83 | a wrapped buffer shares the caller's array and starts at position 0 |
| `ByteBuffers.ByteBuffer.GetLong` | src/main/java/ru/progrm_jarvis/benchmark/padla/util/UuidDeserializationBenchmark.java:84 | `getLong` returns the big-endian long at the current position and advances the position by 8 |
| `ByteBuffers.ByteBuffer.PutLong` | src/main/java/ru/progrm_jarvis/benchmark/padla/util/UuidSerializationBenchmark.java:72-73 | `putLong` stores the big-endian bytes at the current position, changes no other byte, and advances the position by 8 |
| `UuidCodec.Encoded` | src/main/java/ru/progrm_jarvis/benchmark/padla/util/UuidSerializationBenchmark.java:71-73 | the layout is 16 bytes, and decoding it gives back both halves |
| `UuidCodec.DecodedByTwoReads` | src/main/java/ru/progrm_jarvis/benchmark/padla/util/UuidDeserializationBenchmark.java:93-96 | the reference decoding is two big-endian long reads, at index 0 for the most significant half and index 8 for the least |
| `UuidCodec.EncodedDecoded` | src/main/java/ru/progrm_jarvis/benchmark/padla/util/UuidDeserializationBenchmark.java:83-84 | encoding the decoding of any 16 bytes reproduces those bytes |
| `UuidCodec.EncodedExamples` | src/main/java/ru/progrm_jarvis/benchmark/padla/util/UuidSerializationBenchmark.java:71-75 | halves 0x0102030405060708 and 0x090A0B0C0D0E0F10 encode to bytes 01 to 10 in order, and zero halves encode to sixteen zero bytes |
| `UuidCodec.TryReverseBytesInvolution` | src/main/java/ru/progrm_jarvis/benchmark/padla/util/UuidDeserializationBenchmark.java:111-113 | `tryReverseBytes` is the identity on a big-endian host and its own inverse on either host |
| `UuidCodec.UnsafeReadIsBigEndian` | src/main/java/ru/progrm_jarvis/benchmark/padla/util/UuidDeserializationBenchmark.java:105-108 | a native-order read followed by `tryReverseBytes` equals the big-endian read, on both hosts |
| `UuidCodec.UnsafeWriteIsBigEndian` | src/main/java/ru/progrm_jarvis/benchmark/padla/util/UuidSerializationBenchmark.java:92-99 | `tryReverseBytes` followed by a native-order write stores the big-endian bytes, on both hosts |
| `UuidDeserialization.FromBytesByteBuffer` | src/main/java/ru/progrm_jarvis/benchmark/padla/util/UuidDeserializationBenchmark.java:79-85 | null gives NullPointerException("bytes is null"); any length but 16 gives IllegalArgumentException("Length of bytes should be 16"); otherwise the result is the reference decoding of the array |
| `UuidDeserialization.FromBytesVarHandle` | src/main/java/ru/progrm_jarvis/benchmark/padla/util/UuidDeserializationBenchmark.java:87-97 | null gives NullPointerException("bytes is null"); any length but 16 gives IllegalArgumentException("Length of bytes length should be 16"); otherwise the reference decoding |
| `UuidDeserialization.FromBytesUnsafe` | src/main/java/ru/progrm_jarvis/benchmark/padla/util/UuidDeserializationBenchmark.java:99-109 | the same three outcomes and messages as the VarHandle decoder, on both little-endian and big-endian hosts |
| `UuidDeserialization.DecodersAgree` | src/main/java/ru/progrm_jarvis/benchmark/padla/util/UuidDeserializationBenchmark.java:79-109 | the VarHandle and Unsafe decoders return equal results for every input and host order |
| `UuidDeserialization.EncodeAfterDecode` | src/main/java/ru/progrm_jarvis/benchmark/padla/util/UuidDeserializationBenchmark.java:83-84 | decoding 16 bytes always succeeds, and encoding the result reproduces the array |
| `UuidSerialization.ToBytesByteBuffer` | src/main/java/ru/progrm_jarvis/benchmark/padla/util/UuidSerializationBenchmark.java:68-76 | null gives NullPointerException("uuid is null"); otherwise a fresh 16-element array holding the reference layout |
| `UuidSerialization.ToBytesVarHandle` | src/main/java/ru/progrm_jarvis/benchmark/padla/util/UuidSerializationBenchmark.java:78-86 | null gives NullPointerException("uuid is null"); otherwise a fresh 16-element array holding the reference layout |
| `UuidSerialization.ToBytesUnsafe` | src/main/java/ru/progrm_jarvis/benchmark/padla/util/UuidSerializationBenchmark.java:88-102 | null gives NullPointerException("uuid is null"); otherwise a fresh 16-element array holding the reference layout, on both hosts |
| `UuidRoundTrip.EncodersAgree` | src/main/java/ru/progrm_jarvis/benchmark/padla/util/UuidSerializationBenchmark.java:68-102 | the three encoders store identical bytes for the same UUID, the reference layout |
| `UuidRoundTrip.DecodersAgreeOnAll` | src/main/java/ru/progrm_jarvis/benchmark/padla/util/UuidDeserializationBenchmark.java:79-109 | on every input, the ByteBuffer decoder returns the same UUID as the other two and the same exception class; for a wrong length only its message differs |
| `UuidRoundTrip.RoundTrip` | src/main/java/ru/progrm_jarvis/benchmark/padla/util/UuidSerializationBenchmark.java:71-73 | each encoder's array, read by each decoder, gives the UUID back (nine results) |

All three encoders ensure that the result's contents equal `Encoded(uuid)`.
So they produce identical arrays. `Encoded`'s contract says these arrays
decode back to the UUID. On a 16-byte array every decoder returns
`Decoded`, so the decoders agree on every successful decode. They also agree
on the exception class for every bad input. They do not agree on the message
for a wrong length: the `ByteBuffer` decoder words it differently. The decoders never modify their input: the two functions only read
it, and the method has no `modifies` clause.

## Left out

- The JMH scaffolding is left out, because it has no behaviour to state: the
  `@State`/`@Param` fields, the `@Benchmark` loops and `Blackhole`.
- The `setUp` methods are left out. They use random UUIDs and stream I/O.
  The decoder fixtures are written least significant half first, so they are
  benchmark input only, not a round trip of the codec.
- The static initialisers that obtain `Unsafe` through reflection are left
  out. They are privileged platform calls. Only the raw 8-byte read or write
  at an offset is modelled.
- `VarHandle.storeStoreFence()` in `setUp` is left out. It is a
  memory-ordering fence.
- `misc/ArrayAllocation.java` is left out. It is an allocation
  micro-benchmark with no logic.
- The Java platform library (`ByteBuffer`, `VarHandle`, `Unsafe`,
  `Long.reverseBytes`) is not part of this model. `ByteBuffer`, `VarHandle`
  and `Unsafe` are modelled by their documented behaviour. `ReverseBytes`
  uses the library's shift-and-mask formula, and `ReverseBytesReversesOrder`
  proves that it has the documented behaviour.
- `ByteBuffer`'s `BufferUnderflowException`/`BufferOverflowException`,
  the view's `IndexOutOfBoundsException`, read-only buffers and
  `ByteBuffer.order` are not modelled. Instead, `GetLong`, `PutLong` and
  the view reads require eight bytes to remain. After the length check the
  codec always meets this.
- `Unsafe` does no bounds check, so an out-of-range raw access is undefined
  behaviour. The model requires the access to be in range; the codec's
  length check guarantees it.
- `UUID`'s other methods (version, variant, `toString`, `compareTo`) are
  left out, because the codec does not use them.
