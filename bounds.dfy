/**
 * The decoder reads nothing past what it consumes, and, when no field acts
 * as padding, consumes nothing past the end of the buffer: a layout larger
 * than the buffer makes the decode fail instead of reading out of range.
 */
module Bounds {
  import opened Words
  import opened Tags
  import opened Shapes
  import opened Decoding
  import opened Consumption

  /**
   * A hook-free destination decodes the same from any buffer that starts
   * with the bytes it consumed: the outcome depends on those bytes only.
   */
  lemma {:induction false} ReadsOnlyConsumed(env: Env, t: Type, v: Value, b1: seq<byte>, b2: seq<byte>,
                                             order: ByteOrder, addressable: bool)
    requires Matches(v, t) && HookFree(t, v)
    requires Decode(env, t, v, b1, order, addressable).status.Consumed?
    requires var n := Decode(env, t, v, b1, order, addressable).status.count;
      0 <= n <= |b1| && n <= |b2| && b1[..n] == b2[..n]
    ensures Decode(env, t, v, b2, order, addressable) == Decode(env, t, v, b1, order, addressable)
    decreases v, 0
  {
    match t {
      case IntT(s) =>
        assert b1[..s.Bytes()] == b2[..s.Bytes()];
      case UintT(s) =>
        assert b1[..s.Bytes()] == b2[..s.Bytes()];
      case FloatT(s) =>
        assert b1[..s.Bytes()] == b2[..s.Bytes()];
      case StructT(name, fs) =>
        var n := Decode(env, t, v, b1, order, addressable).status.count;
        FieldsReadOnlyConsumed(env, name, fs, v.fields, 0, [], 0, b1, b2, order, addressable, n);
      case ArrayT(et, _) =>
        var n := Decode(env, t, v, b1, order, addressable).status.count;
        ElemsReadOnlyConsumed(env, et, v.elems, 0, [], 0, b1, b2, order, addressable, n);
      case SliceT(et) =>
        var n := Decode(env, t, v, b1, order, addressable).status.count;
        ElemsReadOnlyConsumed(env, et, v.elems, 0, [], 0, b1, b2, order, true, n);
      case InterfaceT =>
        ReadsOnlyConsumed(env, v.dyn.value.typ, v.dyn.value.val, b1, b2, order, false);
      case _ =>
    }
  }

  lemma {:induction false} FieldReadsOnlyConsumed(env: Env, name: string, f: Field, v: Value, offset: int,
                                                  b1: seq<byte>, b2: seq<byte>, order: ByteOrder, addressable: bool, limit: int)
    requires Matches(v, f.typ) && f.tag.fn == "" && HookFree(f.typ, v)
    requires DecodeField(env, name, f, v, offset, b1, order, addressable).status.Consumed?
    requires offset + DecodeField(env, name, f, v, offset, b1, order, addressable).status.count <= limit
    requires 0 <= limit <= |b1| && limit <= |b2| && b1[..limit] == b2[..limit]
    ensures DecodeField(env, name, f, v, offset, b2, order, addressable) == DecodeField(env, name, f, v, offset, b1, order, addressable)
    decreases v, 1
  {
    if f.exported && !IgnoreRequested(f.tag.ignore) {
      if f.typ.StringT? {
        var length := ParseInt32(f.tag.length).value;
        WindowsAgree(b1, b2, limit, offset, length);
      } else {
        var k := DecodeField(env, name, f, v, offset, b1, order, addressable).status.count;
        ConsumedIsWireSize(env, f.typ, v, b1[offset..], order, addressable);
        WindowsAgree(b1, b2, limit, offset, k);
        ReadsOnlyConsumed(env, f.typ, v, b1[offset..], b2[offset..], order, addressable);
      }
    }
  }

  lemma {:induction false} FieldsReadOnlyConsumed(env: Env, name: string, fs: seq<Field>, vs: seq<Value>, i: nat,
                                                   done: seq<Value>, offset: int, b1: seq<byte>, b2: seq<byte>,
                                                   order: ByteOrder, addressable: bool, limit: int)
    requires |fs| == |vs| && i <= |vs| && |done| == i
    requires forall j :: 0 <= j < |vs| ==> Matches(vs[j], fs[j].typ)
    requires forall j :: 0 <= j < |vs| ==> fs[j].tag.fn == "" && HookFree(fs[j].typ, vs[j])
    requires DecodeFields(env, name, fs, vs, i, done, offset, b1, order, addressable).status.Consumed?
    requires DecodeFields(env, name, fs, vs, i, done, offset, b1, order, addressable).status.count <= limit
    requires 0 <= limit <= |b1| && limit <= |b2| && b1[..limit] == b2[..limit]
    ensures DecodeFields(env, name, fs, vs, i, done, offset, b2, order, addressable)
         == DecodeFields(env, name, fs, vs, i, done, offset, b1, order, addressable)
    decreases vs, |vs| - i
  {
    if i < |vs| {
      var d := DecodeField(env, name, fs[i], vs[i], offset, b1, order, addressable);
      var next1 := DecodeFields(env, name, fs, vs, i + 1, done + [d.value], offset + d.status.count, b1, order, addressable);
      assert d.status.Consumed? && DecodeFields(env, name, fs, vs, i, done, offset, b1, order, addressable) == next1 by {
        FieldsHead(env, name, fs, vs, i, done, offset, b1, order, addressable);
      }
      assert offset + d.status.count <= limit by {
        FieldsConsumedIsWireSize(env, name, fs, vs, i + 1, done + [d.value], offset + d.status.count, b1, order, addressable);
      }
      assert DecodeField(env, name, fs[i], vs[i], offset, b2, order, addressable) == d by {
        FieldReadsOnlyConsumed(env, name, fs[i], vs[i], offset, b1, b2, order, addressable, limit);
      }
      assert DecodeFields(env, name, fs, vs, i, done, offset, b2, order, addressable)
          == DecodeFields(env, name, fs, vs, i + 1, done + [d.value], offset + d.status.count, b2, order, addressable) by {
        FieldsStep(env, name, fs, vs, i, done, offset, b2, order, addressable);
      }
      assert DecodeFields(env, name, fs, vs, i + 1, done + [d.value], offset + d.status.count, b2, order, addressable) == next1 by {
        FieldsReadOnlyConsumed(env, name, fs, vs, i + 1, done + [d.value], offset + d.status.count, b1, b2, order, addressable, limit);
      }
    }
  }

  lemma {:induction false} ElemsReadOnlyConsumed(env: Env, et: Type, vs: seq<Value>, i: nat, done: seq<Value>, offset: int,
                                                  b1: seq<byte>, b2: seq<byte>, order: ByteOrder, addressable: bool, limit: int)
    requires i <= |vs| && |done| == i
    requires forall j :: 0 <= j < |vs| ==> Matches(vs[j], et) && HookFree(et, vs[j])
    requires DecodeElems(env, et, vs, i, done, offset, b1, order, addressable).status.Consumed?
    requires DecodeElems(env, et, vs, i, done, offset, b1, order, addressable).status.count <= limit
    requires 0 <= limit <= |b1| && limit <= |b2| && b1[..limit] == b2[..limit]
    ensures DecodeElems(env, et, vs, i, done, offset, b2, order, addressable)
         == DecodeElems(env, et, vs, i, done, offset, b1, order, addressable)
    decreases vs, |vs| - i
  {
    if i < |vs| {
      ElemsHead(env, et, vs, i, done, offset, b1, order, addressable);
      var d := Decode(env, et, vs[i], b1[offset..], order, addressable);
      NextElemReadsOnlyConsumed(env, et, vs, i, done, offset, b1, b2, order, addressable, limit);
      ElemsStep(env, et, vs, i, done, offset, b2, order, addressable);
      ElemsReadOnlyConsumed(env, et, vs, i + 1, done + [d.value], offset + d.status.count, b1, b2, order, addressable, limit);
    }
  }

  /** Element `i` of a successful element loop decodes the same from both buffers, within the limit. */
  lemma NextElemReadsOnlyConsumed(env: Env, et: Type, vs: seq<Value>, i: nat, done: seq<Value>, offset: int,
                                  b1: seq<byte>, b2: seq<byte>, order: ByteOrder, addressable: bool, limit: int)
    requires i < |vs| && |done| == i && 0 <= offset <= |b1|
    requires forall j :: 0 <= j < |vs| ==> Matches(vs[j], et) && HookFree(et, vs[j])
    requires var d := Decode(env, et, vs[i], b1[offset..], order, addressable);
      && d.status.Consumed?
      && DecodeElems(env, et, vs, i + 1, done + [d.value], offset + d.status.count, b1, order, addressable).status.Consumed?
      && DecodeElems(env, et, vs, i + 1, done + [d.value], offset + d.status.count, b1, order, addressable).status.count <= limit
    requires 0 <= limit <= |b1| && limit <= |b2| && b1[..limit] == b2[..limit]
    ensures offset <= |b2|
    ensures var d := Decode(env, et, vs[i], b1[offset..], order, addressable);
      && offset + d.status.count <= limit
      && Decode(env, et, vs[i], b2[offset..], order, addressable) == d
    decreases vs, 0
  {
    var d := Decode(env, et, vs[i], b1[offset..], order, addressable);
    ElemsConsumedIsWireSize(env, et, vs, i + 1, done + [d.value], offset + d.status.count, b1, order, addressable);
    ElemReadsOnlyConsumed(env, et, vs[i], offset, b1, b2, order, addressable, limit);
  }

  /** One element decoded at `offset` reads only the bytes it consumes. */
  lemma {:induction false} ElemReadsOnlyConsumed(env: Env, et: Type, v: Value, offset: int, b1: seq<byte>, b2: seq<byte>,
                                                 order: ByteOrder, addressable: bool, limit: int)
    requires Matches(v, et) && HookFree(et, v) && 0 <= offset <= |b1|
    requires Decode(env, et, v, b1[offset..], order, addressable).status.Consumed?
    requires offset + Decode(env, et, v, b1[offset..], order, addressable).status.count <= limit
    requires 0 <= limit <= |b1| && limit <= |b2| && b1[..limit] == b2[..limit]
    ensures offset <= |b2|
    ensures Decode(env, et, v, b2[offset..], order, addressable) == Decode(env, et, v, b1[offset..], order, addressable)
    decreases v, 1
  {
    var k := Decode(env, et, v, b1[offset..], order, addressable).status.count;
    ConsumedIsWireSize(env, et, v, b1[offset..], order, addressable);
    WindowsAgree(b1, b2, limit, offset, k);
    ReadsOnlyConsumed(env, et, v, b1[offset..], b2[offset..], order, addressable);
  }

  /** Two buffers that agree on their first `limit` bytes agree on every window inside them. */
  lemma WindowsAgree(b1: seq<byte>, b2: seq<byte>, limit: int, offset: int, k: int)
    requires 0 <= offset && 0 <= k && offset + k <= limit <= |b1| && limit <= |b2|
    requires b1[..limit] == b2[..limit]
    ensures b1[offset..][..k] == b2[offset..][..k]
    ensures b1[offset..offset + k] == b2[offset..offset + k]
  {
    assert b1[offset..offset + k] == b1[..limit][offset..offset + k];
    assert b2[offset..offset + k] == b2[..limit][offset..offset + k];
    assert b1[offset..][..k] == b1[offset..offset + k];
    assert b2[offset..][..k] == b2[offset..offset + k];
  }

  /** Without padding fields, a hook-free decode never consumes more than the buffer holds. */
  lemma {:induction false} ConsumedWithinBuffer(env: Env, t: Type, v: Value, bytes: seq<byte>, order: ByteOrder, addressable: bool)
    requires Matches(v, t) && HookFree(t, v) && PaddingFree(t, v)
    requires Decode(env, t, v, bytes, order, addressable).status.Consumed?
    ensures Decode(env, t, v, bytes, order, addressable).status.count <= |bytes|
    decreases v, 0
  {
    match t {
      case StructT(name, fs) =>
        FieldsWithinBuffer(env, name, fs, v.fields, 0, [], 0, bytes, order, addressable);
      case ArrayT(et, _) =>
        ElemsWithinBuffer(env, et, v.elems, 0, [], 0, bytes, order, addressable);
      case SliceT(et) =>
        ElemsWithinBuffer(env, et, v.elems, 0, [], 0, bytes, order, true);
      case InterfaceT =>
        ConsumedWithinBuffer(env, v.dyn.value.typ, v.dyn.value.val, bytes, order, false);
      case _ =>
    }
  }

  lemma {:induction false} FieldsWithinBuffer(env: Env, name: string, fs: seq<Field>, vs: seq<Value>, i: nat,
                                               done: seq<Value>, offset: int, bytes: seq<byte>, order: ByteOrder, addressable: bool)
    requires |fs| == |vs| && i <= |vs| && |done| == i && 0 <= offset <= |bytes|
    requires forall j :: 0 <= j < |vs| ==> Matches(vs[j], fs[j].typ)
    requires forall j :: 0 <= j < |vs| ==> fs[j].tag.fn == "" && HookFree(fs[j].typ, vs[j])
    requires forall j :: 0 <= j < |vs| ==> fs[j].exported && PaddingFree(fs[j].typ, vs[j])
    requires DecodeFields(env, name, fs, vs, i, done, offset, bytes, order, addressable).status.Consumed?
    ensures DecodeFields(env, name, fs, vs, i, done, offset, bytes, order, addressable).status.count <= |bytes|
    decreases vs, |vs| - i
  {
    if i < |vs| {
      var f := fs[i];
      var d := DecodeField(env, name, f, vs[i], offset, bytes, order, addressable);
      if !IgnoreRequested(f.tag.ignore) && !f.typ.StringT? {
        ConsumedIsWireSize(env, f.typ, vs[i], bytes[offset..], order, addressable);
        ConsumedWithinBuffer(env, f.typ, vs[i], bytes[offset..], order, addressable);
      }
      FieldsWithinBuffer(env, name, fs, vs, i + 1, done + [d.value], offset + d.status.count, bytes, order, addressable);
    }
  }

  lemma {:induction false} ElemsWithinBuffer(env: Env, et: Type, vs: seq<Value>, i: nat, done: seq<Value>, offset: int,
                                              bytes: seq<byte>, order: ByteOrder, addressable: bool)
    requires i <= |vs| && |done| == i && 0 <= offset <= |bytes|
    requires forall j :: 0 <= j < |vs| ==> Matches(vs[j], et) && HookFree(et, vs[j]) && PaddingFree(et, vs[j])
    requires DecodeElems(env, et, vs, i, done, offset, bytes, order, addressable).status.Consumed?
    ensures DecodeElems(env, et, vs, i, done, offset, bytes, order, addressable).status.count <= |bytes|
    decreases vs, |vs| - i
  {
    if i < |vs| {
      var d := Decode(env, et, vs[i], bytes[offset..], order, addressable);
      ConsumedIsWireSize(env, et, vs[i], bytes[offset..], order, addressable);
      ConsumedWithinBuffer(env, et, vs[i], bytes[offset..], order, addressable);
      ElemsWithinBuffer(env, et, vs, i + 1, done + [d.value], offset + d.status.count, bytes, order, addressable);
    }
  }

  /** A hook-free layout without padding that needs more bytes than the buffer holds fails. */
  lemma ShortBufferFails(env: Env, t: Type, v: Value, bytes: seq<byte>, order: ByteOrder, addressable: bool)
    requires Matches(v, t) && HookFree(t, v) && PaddingFree(t, v)
    requires |bytes| < WireSize(env, t, v)
    ensures Decode(env, t, v, bytes, order, addressable).status.Failed?
  {
    if Decode(env, t, v, bytes, order, addressable).status.Consumed? {
      ConsumedIsWireSize(env, t, v, bytes, order, addressable);
      ConsumedWithinBuffer(env, t, v, bytes, order, addressable);
    }
  }
}
