/** The 64-bit and 8-bit primitives the UUID codec is built from: a Java
    `long` as its 64-bit pattern, a Java `byte` as its 8-bit pattern, the
    big-endian and native-order views of eight bytes of a `byte[]`, and
    `Long.reverseBytes`.

    `BigEndianValue`, `LittleEndianValue` and `Reversed` are the reference
    meanings, defined by recursion over the bytes; the views used by the
    codec assemble or split the eight bytes with fixed shifts, and their
    contracts tie them to the reference. */
module Bits {

  /** `Long.BYTES`. */
  const LONG_BYTES: nat := 8

  /** The byte order of the host's memory, `ByteOrder.nativeOrder()`. */
  datatype ByteOrder = BigEndian | LittleEndian

  /** Reference: the value of at most eight bytes read most significant
      byte first. */
  function BigEndianValue(s: seq<bv8>): bv64
    requires |s| <= LONG_BYTES
  {
    if s == [] then 0
    else ShiftIn(BigEndianValue(s[..|s| - 1]), s[|s| - 1])
  }

  /** Reference: the value of at most eight bytes read least significant
      byte first. */
  function LittleEndianValue(s: seq<bv8>): bv64
    requires |s| <= LONG_BYTES
  {
    if s == [] then 0
    else ShiftIn(LittleEndianValue(s[1..]), s[0])
  }

  /** The bytes of `s` in the opposite order. */
  function Reversed(s: seq<bv8>): (r: seq<bv8>)
    ensures |r| == |s|
    ensures forall i :: 0 <= i < |s| ==> r[i] == s[|s| - 1 - i]
  {
    if s == [] then [] else Reversed(s[1..]) + [s[0]]
  }

  /** Java's `(byte) x`: the low eight bits of `x`. */
  function LowByte(x: bv64): bv8 {
    (x & 0xFF) as bv8
  }

  /** The long whose bytes, most significant first, are `b0` to `b7`. */
  function Assemble(b0: bv8, b1: bv8, b2: bv8, b3: bv8, b4: bv8, b5: bv8, b6: bv8, b7: bv8): bv64 {
    (b0 as bv64 << 56) | (b1 as bv64 << 48) | (b2 as bv64 << 40) | (b3 as bv64 << 32)
    | (b4 as bv64 << 24) | (b5 as bv64 << 16) | (b6 as bv64 << 8) | (b7 as bv64)
  }

  /** `acc` shifted up by one byte, with `b` as the new low byte. */
  function ShiftIn(acc: bv64, b: bv8): bv64 {
    (acc << 8) | b as bv64
  }

  /** Shifting in `b0` to `b7` one at a time builds `Assemble(b0, ..., b7)`. */
  lemma ShiftInEight(b0: bv8, b1: bv8, b2: bv8, b3: bv8, b4: bv8, b5: bv8, b6: bv8, b7: bv8)
    ensures ShiftIn(ShiftIn(ShiftIn(ShiftIn(ShiftIn(ShiftIn(ShiftIn(b0 as bv64, b1), b2), b3), b4), b5), b6), b7)
         == Assemble(b0, b1, b2, b3, b4, b5, b6, b7)
  {
  }

  /** Shifting in the bytes of `b` one at a time, most significant first,
      builds the same long as `Assemble`. */
  lemma AssembleByShifts(x: seq<bv64>, b: seq<bv8>)
    requires |x| == |b| == LONG_BYTES
    requires x[0] == b[0] as bv64
    requires forall k :: 0 < k < LONG_BYTES ==> x[k] == ShiftIn(x[k - 1], b[k])
    ensures x[7] == Assemble(b[0], b[1], b[2], b[3], b[4], b[5], b[6], b[7])
  {
    ShiftInEight(b[0], b[1], b[2], b[3], b[4], b[5], b[6], b[7]);
  }

  /** Eight bytes read most significant first, written out byte by byte. */
  lemma {:induction false} BigEndianValueOfEight(t: seq<bv8>)
    requires |t| == LONG_BYTES
    ensures BigEndianValue(t) == Assemble(t[0], t[1], t[2], t[3], t[4], t[5], t[6], t[7])
  {
    var x := seq(LONG_BYTES, k requires 0 <= k < LONG_BYTES => BigEndianValue(t[..k + 1]));
    assert x[0] == t[0] as bv64 by {
      assert t[..1][..0] == [] && BigEndianValue([]) == 0;
    }
    forall k | 0 < k < LONG_BYTES
      ensures x[k] == ShiftIn(x[k - 1], t[k])
    {
      assert t[..k + 1][..k] == t[..k];
    }
    assert t[..8] == t;
    AssembleByShifts(x, t);
  }

  /** Eight bytes read least significant first, written out byte by byte. */
  lemma {:induction false} LittleEndianValueOfEight(t: seq<bv8>)
    requires |t| == LONG_BYTES
    ensures LittleEndianValue(t) == Assemble(t[7], t[6], t[5], t[4], t[3], t[2], t[1], t[0])
  {
    var x := seq(LONG_BYTES, k requires 0 <= k < LONG_BYTES => LittleEndianValue(t[7 - k..]));
    var b := seq(LONG_BYTES, k requires 0 <= k < LONG_BYTES => t[7 - k]);
    assert x[0] == b[0] as bv64 by {
      assert t[7..][1..] == [] && LittleEndianValue([]) == 0;
    }
    forall k | 0 < k < LONG_BYTES
      ensures x[k] == ShiftIn(x[k - 1], b[k])
    {
      assert t[7 - k..][1..] == t[7 - (k - 1)..];
    }
    assert t[0..] == t;
    AssembleByShifts(x, b);
  }

  /** Reading bytes least significant first is reading the reversed bytes
      most significant first. */
  lemma {:induction false} LittleEndianIsReversedBigEndian(s: seq<bv8>)
    requires |s| <= LONG_BYTES
    ensures LittleEndianValue(s) == BigEndianValue(Reversed(s))
  {
    if s != [] {
      LittleEndianIsReversedBigEndian(s[1..]);
      var r := Reversed(s);
      assert r == Reversed(s[1..]) + [s[0]];
      assert r[..|r| - 1] == Reversed(s[1..]);
    }
  }

  /** The eight bytes of `v`, most significant first: what a big-endian
      write of `v` stores. */
  function BigEndianBytes(v: bv64): (r: seq<bv8>)
    ensures |r| == LONG_BYTES && BigEndianValue(r) == v
  {
    var r := [LowByte(v >> 56), LowByte(v >> 48), LowByte(v >> 40), LowByte(v >> 32),
              LowByte(v >> 24), LowByte(v >> 16), LowByte(v >> 8), LowByte(v)];
    BigEndianValueOfEight(r);
    r
  }

  /** Eight bytes are the big-endian bytes of the long they read as: no two
      byte strings read alike. */
  lemma BigEndianBytesOfValue(t: seq<bv8>)
    requires |t| == LONG_BYTES
    ensures BigEndianBytes(BigEndianValue(t)) == t
  {
    BigEndianValueOfEight(t);
    assert t == [t[0], t[1], t[2], t[3], t[4], t[5], t[6], t[7]];
  }

  /** The eight bytes of `v`, least significant first: what a little-endian
      write of `v` stores. */
  function LittleEndianBytes(v: bv64): (r: seq<bv8>)
    ensures |r| == LONG_BYTES && LittleEndianValue(r) == v
  {
    var r := [LowByte(v), LowByte(v >> 8), LowByte(v >> 16), LowByte(v >> 24),
              LowByte(v >> 32), LowByte(v >> 40), LowByte(v >> 48), LowByte(v >> 56)];
    LittleEndianValueOfEight(r);
    r
  }

  /** The long at `s[index..index + 8]` read big-endian: a big-endian
      `VarHandle` view of a `byte[]`, and `ByteBuffer.getLong` in the
      buffer's default order. */
  function GetLongBigEndian(s: seq<bv8>, index: nat): (r: bv64)
    requires index + LONG_BYTES <= |s|
    ensures r == BigEndianValue(s[index..index + LONG_BYTES])
  {
    BigEndianValueOfEight(s[index..index + LONG_BYTES]);
    Assemble(s[index], s[index + 1], s[index + 2], s[index + 3],
             s[index + 4], s[index + 5], s[index + 6], s[index + 7])
  }

  /** The long at `s[index..index + 8]` read in the host's native order:
      `Unsafe.getLong` on a `byte[]`. */
  function GetLongNative(s: seq<bv8>, index: nat, nativeOrder: ByteOrder): (r: bv64)
    requires index + LONG_BYTES <= |s|
    ensures nativeOrder == BigEndian ==> r == BigEndianValue(s[index..index + LONG_BYTES])
    ensures nativeOrder == LittleEndian ==> r == LittleEndianValue(s[index..index + LONG_BYTES])
  {
    match nativeOrder
    case BigEndian => GetLongBigEndian(s, index)
    case LittleEndian =>
      LittleEndianValueOfEight(s[index..index + LONG_BYTES]);
      Assemble(s[index + 7], s[index + 6], s[index + 5], s[index + 4],
               s[index + 3], s[index + 2], s[index + 1], s[index])
  }

  /** The eight bytes `Unsafe.putLong` stores for `v` in the host's native
      order. */
  function NativeBytes(v: bv64, nativeOrder: ByteOrder): (r: seq<bv8>)
    ensures |r| == LONG_BYTES
    ensures nativeOrder == BigEndian ==> BigEndianValue(r) == v
    ensures nativeOrder == LittleEndian ==> LittleEndianValue(r) == v
  {
    match nativeOrder
    case BigEndian => BigEndianBytes(v)
    case LittleEndian => LittleEndianBytes(v)
  }

  /** `Long.reverseBytes`, computed as the Java platform library does: swap
      adjacent bytes, then reverse the order of the four 16-bit
      quarters. */
  function ReverseBytes(v: bv64): bv64 {
    var i := ((v & 0x00FF_00FF_00FF_00FF) << 8) | ((v >> 8) & 0x00FF_00FF_00FF_00FF);
    (i << 48) | ((i & 0xFFFF_0000) << 16) | ((i >> 16) & 0xFFFF_0000) | (i >> 48)
  }

  /** Reversing the bytes of an assembled long assembles them backwards. */
  lemma ReverseBytesOfAssembled(b0: bv8, b1: bv8, b2: bv8, b3: bv8, b4: bv8, b5: bv8, b6: bv8, b7: bv8)
    ensures ReverseBytes(Assemble(b0, b1, b2, b3, b4, b5, b6, b7)) == Assemble(b7, b6, b5, b4, b3, b2, b1, b0)
  {
  }

  /** `Long.reverseBytes` does what its name says: the long whose bytes are
      `t` becomes the long whose bytes are `t` in the opposite order. */
  lemma {:induction false} ReverseBytesReversesOrder(t: seq<bv8>)
    requires |t| == LONG_BYTES
    ensures ReverseBytes(BigEndianValue(t)) == BigEndianValue(Reversed(t))
  {
    BigEndianValueOfEight(t);
    LittleEndianValueOfEight(t);
    LittleEndianIsReversedBigEndian(t);
    ReverseBytesOfAssembled(t[0], t[1], t[2], t[3], t[4], t[5], t[6], t[7]);
  }

  /** Reversing the bytes twice gives back the original long. */
  lemma ReverseBytesInvolution(v: bv64)
    ensures ReverseBytes(ReverseBytes(v)) == v
  {
  }

  /** Stores `bytes` into `a` from `index` on and leaves every other element
      as it was. */
  method PutBytes(a: array<bv8>, index: nat, bytes: seq<bv8>)
    requires index + |bytes| <= a.Length
    modifies a
    ensures a[..] == old(a[..])[..index] + bytes + old(a[..])[index + |bytes|..]
  {
    forall i | index <= i < index + |bytes| {
      a[i] := bytes[i - index];
    }
  }

  /** A big-endian `VarHandle` view's `set` of the long `v` at `index`. */
  method SetLongBigEndian(a: array<bv8>, index: nat, v: bv64)
    requires index + LONG_BYTES <= a.Length
    modifies a
    ensures a[..] == old(a[..])[..index] + BigEndianBytes(v) + old(a[..])[index + LONG_BYTES..]
  {
    PutBytes(a, index, BigEndianBytes(v));
  }

  /** `Unsafe.putLong` of `v` at `index`, in the host's native order. */
  method PutLongNative(a: array<bv8>, index: nat, v: bv64, nativeOrder: ByteOrder)
    requires index + LONG_BYTES <= a.Length
    modifies a
    ensures a[..] == old(a[..])[..index] + NativeBytes(v, nativeOrder) + old(a[..])[index + LONG_BYTES..]
  {
    PutBytes(a, index, NativeBytes(v, nativeOrder));
  }
}
