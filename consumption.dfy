/**
 * How many bytes the decoder consumes and which of them it reads. For a
 * destination without `bytes_fn` hooks (whose counts come from foreign
 * code) the count is fixed by the layout alone: `WireSize` adds up the
 * scalar widths, the static sizes of unexported fields, zero for ignored
 * fields and the declared length of string fields, in declaration order.
 */
module Consumption {
  import opened Options
  import opened Words
  import opened Tags
  import opened Shapes
  import opened Decoding

  /** No field of any struct in `v` carries a `bytes_fn` hook, looking through arrays, slices and interfaces. */
  predicate HookFree(t: Type, v: Value)
    decreases v
  {
    match v
    case StructV(vs) =>
      t.StructT? && |t.fields| == |vs| &&
      forall j :: 0 <= j < |vs| ==> t.fields[j].tag.fn == "" && HookFree(t.fields[j].typ, vs[j])
    case ElemsV(vs) =>
      (t.ArrayT? || t.SliceT?) && forall j :: 0 <= j < |vs| ==> HookFree(t.elem, vs[j])
    case IfaceV(dyn) =>
      dyn.Some? ==> HookFree(dyn.value.typ, dyn.value.val)
    case _ => true
  }

  /** Every field of every struct in `v` is exported: none acts as padding. */
  predicate PaddingFree(t: Type, v: Value)
    decreases v
  {
    match v
    case StructV(vs) =>
      t.StructT? && |t.fields| == |vs| &&
      forall j :: 0 <= j < |vs| ==> t.fields[j].exported && PaddingFree(t.fields[j].typ, vs[j])
    case ElemsV(vs) =>
      (t.ArrayT? || t.SliceT?) && forall j :: 0 <= j < |vs| ==> PaddingFree(t.elem, vs[j])
    case IfaceV(dyn) =>
      dyn.Some? ==> PaddingFree(dyn.value.typ, dyn.value.val)
    case _ => true
  }

  /** The bytes the layout of `t`, as filled by `v`, occupies in the buffer. */
  function WireSize(env: Env, t: Type, v: Value): (n: nat)
    requires Matches(v, t)
    decreases v, 0
  {
    match t
    case IntT(s) => s.Bytes()
    case UintT(s) => s.Bytes()
    case FloatT(s) => s.Bytes()
    case StructT(_, fs) => FieldsWireSize(env, fs, v.fields, 0)
    case ArrayT(et, _) => ElemsWireSize(env, et, v.elems, 0)
    case SliceT(et) => ElemsWireSize(env, et, v.elems, 0)
    case InterfaceT => if v.dyn.Some? then WireSize(env, v.dyn.value.typ, v.dyn.value.val) else 0
    case StringT => 0
    case OtherT(_) => 0
  }

  function FieldsWireSize(env: Env, fs: seq<Field>, vs: seq<Value>, i: nat): nat
    requires |fs| == |vs| && i <= |vs|
    requires forall j :: 0 <= j < |vs| ==> Matches(vs[j], fs[j].typ)
    decreases vs, |vs| - i
  {
    if i == |vs| then 0 else FieldWireSize(env, fs[i], vs[i]) + FieldsWireSize(env, fs, vs, i + 1)
  }

  /** A negative declared length makes the decode fail, so it never counts. */
  function FieldWireSize(env: Env, f: Field, v: Value): nat
    requires Matches(v, f.typ)
    decreases v, 1
  {
    if !f.exported then env.typeSize(f.typ)
    else if IgnoreRequested(f.tag.ignore) then 0
    else if f.typ.StringT? then
      match ParseInt32(f.tag.length)
      case Some(n) => if n < 0 then 0 else n
      case None => 0
    else WireSize(env, f.typ, v)
  }

  function ElemsWireSize(env: Env, et: Type, vs: seq<Value>, i: nat): nat
    requires i <= |vs|
    requires forall j :: 0 <= j < |vs| ==> Matches(vs[j], et)
    decreases vs, |vs| - i
  {
    if i == |vs| then 0 else WireSize(env, et, vs[i]) + ElemsWireSize(env, et, vs, i + 1)
  }

  /** Elements that all occupy `w` bytes occupy `w` bytes each in total. */
  lemma {:induction false} UniformElemsWireSize(env: Env, et: Type, vs: seq<Value>, i: nat, w: nat)
    requires i <= |vs|
    requires forall j :: 0 <= j < |vs| ==> Matches(vs[j], et) && WireSize(env, et, vs[j]) == w
    ensures ElemsWireSize(env, et, vs, i) == (|vs| - i) * w
    decreases |vs| - i
  {
    if i < |vs| {
      UniformElemsWireSize(env, et, vs, i + 1, w);
      MulStep(|vs| - i, |vs| - (i + 1), w);
    }
  }

  lemma MulStep(n: nat, m: nat, w: nat)
    requires n == m + 1
    ensures n * w == m * w + w
  {
  }

  /** An array of `n` scalars of width `w` occupies `n * w` bytes. */
  lemma ScalarArrayWireSize(env: Env, et: Type, n: nat, v: Value)
    requires IsScalar(et) && Matches(v, ArrayT(et, n))
    ensures WireSize(env, ArrayT(et, n), v) == n * Width(et)
  {
    UniformElemsWireSize(env, et, v.elems, 0, Width(et));
  }

  /** A successful decode of a hook-free destination consumes exactly its wire size. */
  lemma {:induction false} ConsumedIsWireSize(env: Env, t: Type, v: Value, bytes: seq<byte>, order: ByteOrder, addressable: bool)
    requires Matches(v, t) && HookFree(t, v)
    requires Decode(env, t, v, bytes, order, addressable).status.Consumed?
    ensures Decode(env, t, v, bytes, order, addressable).status.count == WireSize(env, t, v)
    decreases v, 0
  {
    match t {
      case StructT(name, fs) =>
        FieldsConsumedIsWireSize(env, name, fs, v.fields, 0, [], 0, bytes, order, addressable);
      case ArrayT(et, _) =>
        ElemsConsumedIsWireSize(env, et, v.elems, 0, [], 0, bytes, order, addressable);
      case SliceT(et) =>
        ElemsConsumedIsWireSize(env, et, v.elems, 0, [], 0, bytes, order, true);
      case InterfaceT =>
        ConsumedIsWireSize(env, v.dyn.value.typ, v.dyn.value.val, bytes, order, false);
      case _ =>
    }
  }

  lemma {:induction false} FieldConsumedIsWireSize(env: Env, name: string, f: Field, v: Value, offset: int,
                                                   bytes: seq<byte>, order: ByteOrder, addressable: bool)
    requires Matches(v, f.typ) && f.tag.fn == "" && HookFree(f.typ, v)
    requires DecodeField(env, name, f, v, offset, bytes, order, addressable).status.Consumed?
    ensures DecodeField(env, name, f, v, offset, bytes, order, addressable).status.count == FieldWireSize(env, f, v)
    decreases v, 1
  {
    if f.exported && !IgnoreRequested(f.tag.ignore) && !f.typ.StringT? {
      ConsumedIsWireSize(env, f.typ, v, bytes[offset..], order, addressable);
    }
  }

  lemma {:induction false} FieldsConsumedIsWireSize(env: Env, name: string, fs: seq<Field>, vs: seq<Value>, i: nat,
                                                    done: seq<Value>, offset: int, bytes: seq<byte>, order: ByteOrder, addressable: bool)
    requires |fs| == |vs| && i <= |vs| && |done| == i
    requires forall j :: 0 <= j < |vs| ==> Matches(vs[j], fs[j].typ)
    requires forall j :: 0 <= j < |vs| ==> fs[j].tag.fn == "" && HookFree(fs[j].typ, vs[j])
    requires DecodeFields(env, name, fs, vs, i, done, offset, bytes, order, addressable).status.Consumed?
    ensures DecodeFields(env, name, fs, vs, i, done, offset, bytes, order, addressable).status.count
         == offset + FieldsWireSize(env, fs, vs, i)
    ensures DecodeFields(env, name, fs, vs, i, done, offset, bytes, order, addressable).status.count >= offset
    decreases vs, |vs| - i
  {
    if i < |vs| {
      var d := DecodeField(env, name, fs[i], vs[i], offset, bytes, order, addressable);
      FieldConsumedIsWireSize(env, name, fs[i], vs[i], offset, bytes, order, addressable);
      FieldsConsumedIsWireSize(env, name, fs, vs, i + 1, done + [d.value], offset + d.status.count, bytes, order, addressable);
    }
  }

  lemma {:induction false} ElemsConsumedIsWireSize(env: Env, et: Type, vs: seq<Value>, i: nat, done: seq<Value>, offset: int,
                                                   bytes: seq<byte>, order: ByteOrder, addressable: bool)
    requires i <= |vs| && |done| == i
    requires forall j :: 0 <= j < |vs| ==> Matches(vs[j], et) && HookFree(et, vs[j])
    requires DecodeElems(env, et, vs, i, done, offset, bytes, order, addressable).status.Consumed?
    ensures DecodeElems(env, et, vs, i, done, offset, bytes, order, addressable).status.count
         == offset + ElemsWireSize(env, et, vs, i)
    decreases vs, |vs| - i
  {
    if i < |vs| {
      var d := Decode(env, et, vs[i], bytes[offset..], order, addressable);
      ConsumedIsWireSize(env, et, vs[i], bytes[offset..], order, addressable);
      ElemsConsumedIsWireSize(env, et, vs, i + 1, done + [d.value], offset + d.status.count, bytes, order, addressable);
    }
  }
}
