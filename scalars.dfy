/**
 * The scalar cases of the decoder: each reads exactly its width from the
 * start of the buffer, assembles it in the chosen byte order, and stores
 * a value whose bit pattern, written back in the same order, is exactly the
 * bytes it read. Signed kinds sign-extend, unsigned kinds keep the word as
 * it is. Floats are kept as their raw word: the float32 case's widening to
 * float64 and narrowing back in `SetFloat` is taken to preserve every bit
 * pattern, which IEEE-754 does not promise for a signalling NaN.
 */
module Scalars {
  import opened Words
  import opened Shapes
  import opened Decoding

  /**
   * int8/16/32/64: a buffer shorter than the width fails; otherwise the
   * stored integer is the two's-complement value whose `n`-byte pattern in
   * the chosen order is the first `n` bytes of the buffer.
   */
  lemma DecodeSignedInt(env: Env, size: IntSize, v: Value, bytes: seq<byte>, order: ByteOrder, addressable: bool)
    requires Matches(v, IntT(size))
    ensures var n := size.Bytes(); var r := Decode(env, IntT(size), v, bytes, order, addressable);
      && (|bytes| < n ==> r == Decoded(v, OutOfRange))
      && (n <= |bytes| && !addressable ==> r == Decoded(v, Unaddressable))
      && (n <= |bytes| && addressable ==>
            && r.status == Consumed(n)
            && Matches(r.value, IntT(size))
            && EncodeWord(ToUnsigned(r.value.i, n), n, order) == bytes[..n])
  {
    var n := size.Bytes();
    if n <= |bytes| && addressable {
      EncodeWordOfWord(bytes[..n], order);
    }
  }

  /**
   * uint8/16/32/64: as for the signed kinds, but the stored number is the
   * word itself (zero-extension of the full width).
   */
  lemma DecodeUnsignedInt(env: Env, size: IntSize, v: Value, bytes: seq<byte>, order: ByteOrder, addressable: bool)
    requires Matches(v, UintT(size))
    ensures var n := size.Bytes(); var r := Decode(env, UintT(size), v, bytes, order, addressable);
      && (|bytes| < n ==> r == Decoded(v, OutOfRange))
      && (n <= |bytes| && !addressable ==> r == Decoded(v, Unaddressable))
      && (n <= |bytes| && addressable ==>
            && r.status == Consumed(n)
            && Matches(r.value, UintT(size))
            && EncodeWord(r.value.u, n, order) == bytes[..n])
  {
    var n := size.Bytes();
    if n <= |bytes| && addressable {
      EncodeWordOfWord(bytes[..n], order);
    }
  }

  /** float32/64: the stored bit pattern is the 32- or 64-bit word read from the buffer. */
  lemma DecodeFloat(env: Env, size: FloatSize, v: Value, bytes: seq<byte>, order: ByteOrder, addressable: bool)
    requires Matches(v, FloatT(size))
    ensures var n := size.Bytes(); var r := Decode(env, FloatT(size), v, bytes, order, addressable);
      && (|bytes| < n ==> r == Decoded(v, OutOfRange))
      && (n <= |bytes| && !addressable ==> r == Decoded(v, Unaddressable))
      && (n <= |bytes| && addressable ==>
            && r.status == Consumed(n)
            && Matches(r.value, FloatT(size))
            && EncodeWord(r.value.bits, n, order) == bytes[..n])
  {
    var n := size.Bytes();
    if n <= |bytes| && addressable {
      EncodeWordOfWord(bytes[..n], order);
    }
  }

  /** The bytes [0x01, 0x00] read as an int16: 1 in little-endian order, 256 in big-endian order. */
  lemma Int16ByteOrder(env: Env)
    ensures Decode(env, IntT(Size16), IntV(0), [1, 0], LittleEndian, true) == Decoded(IntV(1), Consumed(2))
    ensures Decode(env, IntT(Size16), IntV(0), [1, 0], BigEndian, true) == Decoded(IntV(256), Consumed(2))
    ensures Decode(env, IntT(Size16), IntV(0), [0xFF, 0xFE], BigEndian, true) == Decoded(IntV(-2), Consumed(2))
  {
    var s: seq<byte> := [1, 0];
    assert s[..2] == s;
    assert s[1..] == [0];
    var t: seq<byte> := [0xFF, 0xFE];
    assert t[..2] == t && t[..1] == [0xFF];
  }

  /** An int32 cannot be decoded from two bytes: the read fails instead of going past the buffer. */
  lemma Int32FromTwoBytesFails(env: Env, order: ByteOrder)
    ensures Decode(env, IntT(Size32), IntV(0), [1, 2], order, true).status == Failed(Panicked(SliceOutOfRange))
  {
  }
}
