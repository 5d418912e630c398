/**
 * The unsigned cases exactly as bytes_to_data.go writes them: uint16 and
 * uint32 words go through `uint64(int16(word))` before `SetUint` stores
 * them, and `SetUint` keeps the low bytes that fit the field. For uint16
 * this round trip is harmless; for uint32 it loses the upper half of the
 * word and, when bit 15 is set, fills it with ones. The decoder in
 * `Decoding` stores the word itself, which `Scalars.DecodeUnsignedInt`
 * proves.
 */
module AsWritten {
  import opened Words
  import opened Shapes
  import opened Decoding

  lemma PowersOf256()
    ensures Pow256(1) == 0x100 && Pow256(2) == 0x1_0000 && Pow256(4) == 0x1_0000_0000
    ensures Pow256(8) == 0x1_0000_0000_0000_0000
  {
    assert Pow256(2) == 256 * Pow256(1);
    assert Pow256(4) == 256 * 256 * Pow256(2);
    assert Pow256(8) == 256 * 256 * 256 * 256 * Pow256(4);
  }

  /**
   * The number the source stores into a field of unsigned kind `size`,
   * given the word `w` assembled from its bytes.
   */
  function StoredUint(size: IntSize, w: nat): (u: nat)
    requires w < Pow256(size.Bytes())
    ensures u < Pow256(size.Bytes())
  {
    PowersOf256();
    match size
    case Size8 => w
    case Size16 => Truncate(ToUnsigned(ToSigned(Truncate(w, 2), 2), 8), 2)
    case Size32 => Truncate(ToUnsigned(ToSigned(Truncate(w, 2), 2), 8), 4)
    case Size64 => w
  }

  /** For uint8, uint16 and uint64 the source stores the word itself. */
  lemma {:induction false} StoredUintKeepsWord(size: IntSize, w: nat)
    requires size != Size32 && w < Pow256(size.Bytes())
    ensures StoredUint(size, w) == w
  {
    PowersOf256();
    if size == Size16 {
      var i := ToSigned(w, 2);
      var x := ToUnsigned(i, 8);
      if w < 0x8000 {
        assert x == w;
      } else {
        assert x == w - 0x1_0000 + 0x1_0000_0000_0000_0000;
        assert x % 0x1_0000 == w;
      }
    }
  }

  /**
   * For uint32 it does not: the word 0x0000_8000 is stored as 0xFFFF_8000
   * and 0x0001_0000 as 0, whereas the bytes [0x00, 0x00, 0x80, 0x00] read
   * big-endian decode to 0x8000 in `Decoding`.
   */
  lemma StoredUint32Differs(env: Env)
    ensures StoredUint(Size32, 0x8000) == 0xFFFF_8000
    ensures StoredUint(Size32, 0x1_0000) == 0
    ensures Decode(env, UintT(Size32), UintV(0), [0, 0, 0x80, 0], BigEndian, true) == Decoded(UintV(0x8000), Consumed(4))
  {
    PowersOf256();
    var b: seq<byte> := [0, 0, 0x80, 0];
    assert b[..4] == b;
    assert b[..3] == [0, 0, 0x80] && b[..3][..2] == [0, 0] && b[..3][..2][..1] == [0];
    assert BigEndianWord([0]) == 0;
    assert BigEndianWord([0, 0]) == 0;
    assert BigEndianWord([0, 0, 0x80]) == 0x80;
    assert Word(b[..4], BigEndian) == 0x8000;
  }
}
