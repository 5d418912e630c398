/**
 * What `updateValueByTypeFromBytes` computes, as functions: given the
 * destination's type and current value, the buffer (already sliced at the
 * caller's offset), the byte order and whether the destination can be
 * written (`addressable`: reflection's CanAddr, which every value reached
 * from the pointer has, which slice elements always have, and which the
 * content of an interface never has), the decoder yields the destination's
 * new value and either the number of bytes it consumed or the error that
 * stopped it. Writes made before an error stay in the value: nothing is
 * rolled back.
 */
module Decoding {
  import opened Options
  import opened Words
  import opened Tags
  import opened Shapes
  import opened Hooks

  datatype Status = Consumed(count: int) | Failed(error: Error)

  /** The destination after a decode, and how the decode ended. */
  datatype Decoded = Decoded(value: Value, status: Status)

  const OutOfRange := Failed(Panicked(SliceOutOfRange))
  const Unaddressable := Failed(Panicked(UnaddressableValue))

  /** The decoder on one value of type `t`. */
  function Decode(env: Env, t: Type, v: Value, bytes: seq<byte>, order: ByteOrder, addressable: bool): (r: Decoded)
    requires Matches(v, t)
    ensures IsScalar(t) ==> (r.status.Consumed? <==> Width(t) <= |bytes| && addressable)
    ensures IsScalar(t) && r.status.Consumed? ==> r.status.count == Width(t)
    ensures t.StringT? || t.OtherT? ==> r == Decoded(v, Failed(Unsupported(KindName(t))))
    decreases v, 1
  {
    match t
    case IntT(_) => DecodeScalar(t, v, bytes, order, addressable)
    case UintT(_) => DecodeScalar(t, v, bytes, order, addressable)
    case FloatT(_) => DecodeScalar(t, v, bytes, order, addressable)
    case StructT(name, fs) =>
      DecodeFields(env, name, fs, v.fields, 0, [], 0, bytes, order, addressable)
    case ArrayT(et, _) =>
      DecodeElems(env, et, v.elems, 0, [], 0, bytes, order, addressable)
    case SliceT(et) =>
      DecodeElems(env, et, v.elems, 0, [], 0, bytes, order, true)
    case InterfaceT => DecodeInterface(env, v, bytes, order)
    case StringT => Decoded(v, Failed(Unsupported(KindName(t))))
    case OtherT(_) => Decoded(v, Failed(Unsupported(KindName(t))))
  }

  predicate IsScalar(t: Type)
  {
    t.IntT? || t.UintT? || t.FloatT?
  }

  /** The number of bytes a scalar kind reads. */
  function Width(t: Type): nat
    requires IsScalar(t)
  {
    match t
    case IntT(s) => s.Bytes()
    case UintT(s) => s.Bytes()
    case FloatT(s) => s.Bytes()
  }

  /**
   * What a scalar kind stores for the word `w` assembled from its bytes:
   * signed kinds sign-extend it, unsigned kinds keep it (see `AsWritten`
   * for uint32), floats keep it as their bit pattern.
   */
  function ScalarValue(t: Type, w: nat): Value
    requires IsScalar(t) && w < Pow256(Width(t))
  {
    match t
    case IntT(s) => IntV(ToSigned(w, s.Bytes()))
    case UintT(_) => UintV(w)
    case FloatT(_) => FloatV(w)
  }

  /**
   * A scalar: the first `Width(t)` bytes, assembled in `order`. A shorter
   * buffer makes the slice expression panic; so does a destination that
   * cannot be set.
   */
  function DecodeScalar(t: Type, v: Value, bytes: seq<byte>, order: ByteOrder, addressable: bool): (r: Decoded)
    requires IsScalar(t)
    ensures r.status.Consumed? <==> Width(t) <= |bytes| && addressable
    ensures r.status.Consumed? ==> r.status.count == Width(t) && Matches(r.value, t)
    ensures |bytes| < Width(t) ==> r == Decoded(v, OutOfRange)
    ensures Width(t) <= |bytes| && !addressable ==> r == Decoded(v, Unaddressable)
  {
    var n := Width(t);
    if |bytes| < n then Decoded(v, OutOfRange)
    else if !addressable then Decoded(v, Unaddressable)
    else Decoded(ScalarValue(t, Word(bytes[..n], order)), Consumed(n))
  }

  /**
   * The decoder on the zero Value that a nil pointer of element type `t`
   * points to: nothing can be written there. A scalar fails on its slice
   * expression or on the write; a struct fails on its first field, so only
   * a struct without fields decodes (consuming nothing); arrays, slices and
   * interfaces fail on `Len`/`Elem`; the other kinds are refused as usual.
   */
  function DecodeZero(t: Type, bytes: seq<byte>): (r: Status)
    ensures r.Consumed? <==> t.StructT? && |t.fields| == 0
    ensures r.Consumed? ==> r.count == 0
    ensures r.Failed? && !(t.StringT? || t.OtherT?) ==> r.error.Panicked?
    ensures t.StringT? || t.OtherT? ==> r == Failed(Unsupported(KindName(t)))
  {
    match t
    case IntT(_) => if |bytes| < Width(t) then OutOfRange else Failed(Panicked(ZeroValue))
    case UintT(_) => if |bytes| < Width(t) then OutOfRange else Failed(Panicked(ZeroValue))
    case FloatT(_) => if |bytes| < Width(t) then OutOfRange else Failed(Panicked(ZeroValue))
    case StructT(_, fs) => if |fs| == 0 then Consumed(0) else Failed(Panicked(ZeroValue))
    case ArrayT(_, _) => Failed(Panicked(ZeroValue))
    case SliceT(_) => Failed(Panicked(ZeroValue))
    case InterfaceT => Failed(Panicked(ZeroValue))
    case StringT => Failed(Unsupported(KindName(t)))
    case OtherT(_) => Failed(Unsupported(KindName(t)))
  }

  /**
   * An interface: the concrete value it holds is decoded with its own
   * type; that value is not addressable. An empty interface panics.
   */
  function DecodeInterface(env: Env, v: Value, bytes: seq<byte>, order: ByteOrder): (r: Decoded)
    requires Matches(v, InterfaceT)
    ensures r.value.IfaceV? && (r.value.dyn.Some? <==> v.dyn.Some?)
    ensures v.dyn.Some? ==> r.value.dyn.value.typ == v.dyn.value.typ
    ensures v.dyn.None? ==> r == Decoded(v, Failed(Panicked(NilInterface)))
    ensures v.dyn.Some? && IsScalar(v.dyn.value.typ) ==> r.status.Failed?
    decreases v, 0
  {
    match v.dyn
    case None => Decoded(v, Failed(Panicked(NilInterface)))
    case Some(Dynamic(dt, dv)) =>
      var d := Decode(env, dt, dv, bytes, order, false);
      Decoded(IfaceV(Some(Dynamic(dt, d.value))), d.status)
  }

  /**
   * The struct loop from field `i` on, at running offset `offset`, with
   * `done` the new values of the fields before `i`. The struct's result is
   * `DecodeFields(.., 0, [], 0, ..)`.
   */
  function DecodeFields(env: Env, name: string, fs: seq<Field>, vs: seq<Value>, i: nat, done: seq<Value>,
                        offset: int, bytes: seq<byte>, order: ByteOrder, addressable: bool): (r: Decoded)
    requires |fs| == |vs| && i <= |vs| && |done| == i
    requires forall j :: 0 <= j < |vs| ==> Matches(vs[j], fs[j].typ)
    decreases vs, |vs| - i
  {
    if i == |vs| then Decoded(StructV(done), Consumed(offset))
    else
      var d := DecodeField(env, name, fs[i], vs[i], offset, bytes, order, addressable);
      match d.status
      case Failed(e) => Decoded(StructV(done + [d.value] + vs[i + 1..]), d.status)
      case Consumed(k) => DecodeFields(env, name, fs, vs, i + 1, done + [d.value], offset + k, bytes, order, addressable)
  }

  /**
   * One field of struct `structName` at running offset `offset` in the
   * struct's buffer: its new value and the number of bytes it adds to the
   * offset.
   */
  function DecodeField(env: Env, structName: string, f: Field, v: Value, offset: int,
                       bytes: seq<byte>, order: ByteOrder, addressable: bool): (r: Decoded)
    requires Matches(v, f.typ)
    ensures !f.exported || IgnoreRequested(f.tag.ignore) || f.tag.fn != "" ==> r.value == v
    ensures !f.exported ==> r.status == Consumed(env.typeSize(f.typ))
    ensures f.exported && IgnoreRequested(f.tag.ignore) ==> r.status == Consumed(0)
    decreases v, 2
  {
    if !f.exported then Decoded(v, Consumed(env.typeSize(f.typ)))
    else if IgnoreRequested(f.tag.ignore) then Decoded(v, Consumed(0))
    else if f.tag.fn != "" then DecodeHookField(env, structName, f, v, offset, bytes, addressable)
    else if f.typ.StringT? then DecodeStringField(env, f, v, offset, bytes, addressable)
    else if !(0 <= offset <= |bytes|) then Decoded(v, OutOfRange)
    else Decode(env, f.typ, v, bytes[offset..], order, addressable)
  }

  /**
   * A field with a `bytes_fn` tag "encodeHook,decodeHook": the decode hook
   * is looked up on the struct's pointer type and called on the rest of the
   * buffer; its count is what the field adds to the offset.
   */
  function DecodeHookField(env: Env, structName: string, f: Field, v: Value, offset: int,
                           bytes: seq<byte>, addressable: bool): (r: Decoded)
    ensures r.value == v
    ensures ',' !in f.tag.fn ==> r == Decoded(v, Failed(FnTagNeedsTwoNames(f.name)))
    ensures r.status.Consumed? ==>
      |SplitComma(f.tag.fn)| >= 2 && addressable && env.methodOf(structName, SplitComma(f.tag.fn)[1]).Some?
  {
    TwoNamesIffComma(f.tag.fn);
    var names := SplitComma(f.tag.fn);
    if |names| < 2 then Decoded(v, Failed(FnTagNeedsTwoNames(f.name)))
    else if !addressable then Decoded(v, Unaddressable)
    else
      match env.methodOf(structName, names[1])
      case None => Decoded(v, Failed(HookNotFound(structName, names[1])))
      case Some(m) =>
        if !(0 <= offset <= |bytes|) then Decoded(v, OutOfRange)
        else
          match DecodeViaHook(structName, names[1], m, bytes[offset..])
          case Ok(k) => Decoded(v, Consumed(k))
          case Err(e) => Decoded(v, Failed(e))
  }

  /**
   * A string field: exactly `bytes_length` bytes from the running offset,
   * converted to text.
   */
  function DecodeStringField(env: Env, f: Field, v: Value, offset: int, bytes: seq<byte>, addressable: bool): (r: Decoded)
    ensures r.status == Failed(MissingLength(f.name)) <==> ParseInt32(f.tag.length).None?
    ensures r.status.Consumed? ==>
      addressable && 0 <= offset && 0 <= r.status.count && offset + r.status.count <= |bytes| &&
      r.value == StrV(env.bytesToStr(bytes[offset..offset + r.status.count]))
    ensures r.status.Failed? ==> r.value == v
  {
    match ParseInt32(f.tag.length)
    case None => Decoded(v, Failed(MissingLength(f.name)))
    case Some(length) =>
      if !(0 <= offset <= offset + length <= |bytes|) then Decoded(v, OutOfRange)
      else if !addressable then Decoded(v, Unaddressable)
      else Decoded(StrV(env.bytesToStr(bytes[offset..offset + length])), Consumed(length))
  }

  /**
   * The array/slice loop from element `i` on, at running offset `offset`,
   * with `done` the new values of the elements before `i`.
   */
  function DecodeElems(env: Env, et: Type, vs: seq<Value>, i: nat, done: seq<Value>, offset: int,
                       bytes: seq<byte>, order: ByteOrder, addressable: bool): (r: Decoded)
    requires i <= |vs| && |done| == i
    requires forall j :: 0 <= j < |vs| ==> Matches(vs[j], et)
    decreases vs, |vs| - i
  {
    if i == |vs| then Decoded(ElemsV(done), Consumed(offset))
    else if !(0 <= offset <= |bytes|) then Decoded(ElemsV(done + vs[i..]), OutOfRange)
    else
      var d := Decode(env, et, vs[i], bytes[offset..], order, addressable);
      match d.status
      case Failed(e) => Decoded(ElemsV(done + [d.value] + vs[i + 1..]), d.status)
      case Consumed(k) => DecodeElems(env, et, vs, i + 1, done + [d.value], offset + k, bytes, order, addressable)
  }

  /** The struct loop at a field that has not been reached yet: one step of `DecodeFields`. */
  lemma FieldsStep(env: Env, name: string, fs: seq<Field>, vs: seq<Value>, i: nat, done: seq<Value>,
                   offset: int, bytes: seq<byte>, order: ByteOrder, addressable: bool)
    requires |fs| == |vs| && i < |vs| && |done| == i
    requires forall j :: 0 <= j < |vs| ==> Matches(vs[j], fs[j].typ)
    ensures var d := DecodeField(env, name, fs[i], vs[i], offset, bytes, order, addressable);
      DecodeFields(env, name, fs, vs, i, done, offset, bytes, order, addressable)
        == if d.status.Failed? then Decoded(StructV(done + [d.value] + vs[i + 1..]), d.status)
           else DecodeFields(env, name, fs, vs, i + 1, done + [d.value], offset + d.status.count, bytes, order, addressable)
  {
  }

  /** A successful struct loop that has not finished decoded its next field successfully. */
  lemma FieldsHead(env: Env, name: string, fs: seq<Field>, vs: seq<Value>, i: nat, done: seq<Value>,
                   offset: int, bytes: seq<byte>, order: ByteOrder, addressable: bool)
    requires |fs| == |vs| && i < |vs| && |done| == i
    requires forall j :: 0 <= j < |vs| ==> Matches(vs[j], fs[j].typ)
    requires DecodeFields(env, name, fs, vs, i, done, offset, bytes, order, addressable).status.Consumed?
    ensures var d := DecodeField(env, name, fs[i], vs[i], offset, bytes, order, addressable);
      d.status.Consumed? &&
      DecodeFields(env, name, fs, vs, i, done, offset, bytes, order, addressable)
        == DecodeFields(env, name, fs, vs, i + 1, done + [d.value], offset + d.status.count, bytes, order, addressable)
  {
    FieldsStep(env, name, fs, vs, i, done, offset, bytes, order, addressable);
  }

  /** A successful element loop that has not finished decoded its next element successfully, inside the buffer. */
  lemma ElemsHead(env: Env, et: Type, vs: seq<Value>, i: nat, done: seq<Value>, offset: int,
                  bytes: seq<byte>, order: ByteOrder, addressable: bool)
    requires i < |vs| && |done| == i
    requires forall j :: 0 <= j < |vs| ==> Matches(vs[j], et)
    requires DecodeElems(env, et, vs, i, done, offset, bytes, order, addressable).status.Consumed?
    ensures 0 <= offset <= |bytes|
    ensures var d := Decode(env, et, vs[i], bytes[offset..], order, addressable);
      d.status.Consumed? &&
      DecodeElems(env, et, vs, i, done, offset, bytes, order, addressable)
        == DecodeElems(env, et, vs, i + 1, done + [d.value], offset + d.status.count, bytes, order, addressable)
  {
  }

  /** The element loop at an element that has not been reached yet: one step of `DecodeElems`. */
  lemma ElemsStep(env: Env, et: Type, vs: seq<Value>, i: nat, done: seq<Value>, offset: int,
                  bytes: seq<byte>, order: ByteOrder, addressable: bool)
    requires i < |vs| && |done| == i
    requires forall j :: 0 <= j < |vs| ==> Matches(vs[j], et)
    ensures DecodeElems(env, et, vs, i, done, offset, bytes, order, addressable)
         == if !(0 <= offset <= |bytes|) then Decoded(ElemsV(done + vs[i..]), OutOfRange)
            else
              var d := Decode(env, et, vs[i], bytes[offset..], order, addressable);
              if d.status.Failed? then Decoded(ElemsV(done + [d.value] + vs[i + 1..]), d.status)
              else DecodeElems(env, et, vs, i + 1, done + [d.value], offset + d.status.count, bytes, order, addressable)
  {
  }
}
