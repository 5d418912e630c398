/**
 * Whole structs decoded on small buffers, one per struct-loop rule.
 */
module DecodeExamples {
  import opened Words
  import opened Tags
  import opened Shapes
  import opened Decoding

  const NoTag := Tag("", "", "")

  /**
   * struct { A int8 `bytes_ignore:"true"`; B int8 } from [5]: A keeps its
   * value, B reads the only byte, one byte is consumed.
   */
  lemma IgnoredFieldTakesNoBytes(env: Env)
    ensures Decode(env, StructT("S", [Field("A", true, Tag("true", "", ""), IntT(Size8)), Field("B", true, NoTag, IntT(Size8))]),
                   StructV([IntV(9), IntV(0)]), [5], BigEndian, true)
         == Decoded(StructV([IntV(9), IntV(5)]), Consumed(1))
  {
    var fs := [Field("A", true, Tag("true", "", ""), IntT(Size8)), Field("B", true, NoTag, IntT(Size8))];
    var vs := [IntV(9), IntV(0)];
    var b: seq<byte> := [5];
    assert DecodeFields(env, "S", fs, vs, 1, [IntV(9)], 0, b, BigEndian, true)
        == Decoded(StructV([IntV(9), IntV(5)]), Consumed(1)) by {
      assert b[0..] == b && b[..1] == b;
      assert DecodeField(env, "S", fs[1], vs[1], 0, b, BigEndian, true) == Decoded(IntV(5), Consumed(1));
      FieldsStep(env, "S", fs, vs, 1, [IntV(9)], 0, b, BigEndian, true);
      assert [IntV(9)] + [IntV(5)] == [IntV(9), IntV(5)];
    }
    assert DecodeFields(env, "S", fs, vs, 0, [], 0, b, BigEndian, true)
        == DecodeFields(env, "S", fs, vs, 1, [IntV(9)], 0, b, BigEndian, true) by {
      IgnoreRequestedSpellings("true");
      assert DecodeField(env, "S", fs[0], vs[0], 0, b, BigEndian, true) == Decoded(IntV(9), Consumed(0));
      FieldsStep(env, "S", fs, vs, 0, [], 0, b, BigEndian, true);
      assert [] + [IntV(9)] == [IntV(9)];
    }
  }

  /**
   * struct { pad int16; B uint8 } with `pad` unexported, from
   * [0xAA, 0xBB, 7]: `pad` skips its two bytes unread, B reads the third.
   */
  lemma UnexportedFieldSkipsItsSize(env: Env)
    requires env.typeSize(IntT(Size16)) == 2
    ensures Decode(env, StructT("S", [Field("pad", false, NoTag, IntT(Size16)), Field("B", true, NoTag, UintT(Size8))]),
                   StructV([IntV(0), UintV(0)]), [0xAA, 0xBB, 7], LittleEndian, true)
         == Decoded(StructV([IntV(0), UintV(7)]), Consumed(3))
  {
    var fs := [Field("pad", false, NoTag, IntT(Size16)), Field("B", true, NoTag, UintT(Size8))];
    var vs := [IntV(0), UintV(0)];
    var b: seq<byte> := [0xAA, 0xBB, 7];
    assert DecodeFields(env, "S", fs, vs, 1, [IntV(0)], 2, b, LittleEndian, true)
        == Decoded(StructV([IntV(0), UintV(7)]), Consumed(3)) by {
      assert DecodeScalar(UintT(Size8), UintV(0), b[2..], LittleEndian, true) == Decoded(UintV(7), Consumed(1)) by {
        var tail: seq<byte> := [7];
        assert b[2..] == tail && tail[..1] == tail && tail[1..] == [];
        assert Word(tail, LittleEndian) == 7;
      }
      assert DecodeField(env, "S", fs[1], vs[1], 2, b, LittleEndian, true) == Decoded(UintV(7), Consumed(1));
      FieldsStep(env, "S", fs, vs, 1, [IntV(0)], 2, b, LittleEndian, true);
      assert [IntV(0)] + [UintV(7)] == [IntV(0), UintV(7)];
    }
    assert DecodeFields(env, "S", fs, vs, 0, [], 0, b, LittleEndian, true)
        == DecodeFields(env, "S", fs, vs, 1, [IntV(0)], 2, b, LittleEndian, true) by {
      assert DecodeField(env, "S", fs[0], vs[0], 0, b, LittleEndian, true) == Decoded(IntV(0), Consumed(2));
      FieldsStep(env, "S", fs, vs, 0, [], 0, b, LittleEndian, true);
      assert [] + [IntV(0)] == [IntV(0)];
    }
  }
}
