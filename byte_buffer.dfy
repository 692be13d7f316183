/** The part of `java.nio.ByteBuffer` the codec uses: a buffer that wraps a
    `byte[]` without copying it, with a position that every relative
    `getLong` and `putLong` advances by eight. A wrapped buffer's limit is
    the array's length and its byte order is big-endian. */
module ByteBuffers {
  import opened Bits

  class ByteBuffer {
    /** The backing array, shared with whoever wrapped it. */
    const backing: array<bv8>
    /** The index of the next byte to read or write. */
    var position: nat

    /** `ByteBuffer.wrap(bytes)`. */
    constructor Wrap(bytes: array<bv8>)
      ensures backing == bytes && position == 0
    {
      backing := bytes;
      position := 0;
    }

    /** `getLong()`: the big-endian long at the position; the position moves
        past it. */
    method GetLong() returns (v: bv64)
      requires position + LONG_BYTES <= backing.Length
      modifies this`position
      ensures position == old(position) + LONG_BYTES
      ensures v == GetLongBigEndian(backing[..], old(position))
    {
      v := GetLongBigEndian(backing[..], position);
      position := position + LONG_BYTES;
    }

    /** `putLong(v)`: `v` stored big-endian at the position; the position
        moves past it and no other byte of the array changes. */
    method PutLong(v: bv64)
      requires position + LONG_BYTES <= backing.Length
      modifies this`position, backing
      ensures position == old(position) + LONG_BYTES
      ensures backing[..] == old(backing[..])[..old(position)] + BigEndianBytes(v) + old(backing[..])[old(position) + LONG_BYTES..]
    {
      PutBytes(backing, position, BigEndianBytes(v));
      position := position + LONG_BYTES;
    }

    /** `array()`: the backing array itself, not a copy. */
    function Array(): array<bv8> {
      backing
    }
  }
}
