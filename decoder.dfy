/**
 * `updateValueByTypeFromBytes` and `ConvertBytesToData` as the source
 * writes them: a recursive procedure whose struct and array cases are loops
 * that write each field or element in turn and accumulate the offset. Each
 * method is proved to compute what the `Decoding` functions specify.
 */
module Decoder {
  import opened Options
  import opened Words
  import opened Tags
  import opened Shapes
  import opened Hooks
  import opened Decoding
  import ShapeLemmas

  /** The variable a pointer points to: a type fixed at creation and a value decoding overwrites. */
  class Variable {
    const typ: Type
    var val: Value

    ghost predicate Valid()
      reads this
    {
      Matches(val, typ)
    }

    constructor (t: Type, v: Value)
      requires Matches(v, t)
      ensures Valid() && typ == t && val == v
    {
      typ := t;
      val := v;
    }
  }

  /**
   * The `data interface{}` argument: a pointer to a variable, a nil pointer
   * of some element type, an untyped nil, or some other kind of value.
   */
  datatype Destination = Pointer(target: Variable) | NilPointer(elem: Type) | Nil | NonPointer(kind: string)

  /**
   * Decodes `bytes` into the variable `data` points to. Anything but a
   * pointer is refused before anything is written (an untyped nil panics
   * on the kind check); a nil pointer decodes into the zero Value; otherwise
   * the variable holds whatever the decode wrote, also when it stopped on
   * an error.
   */
  method ConvertBytesToData(env: Env, bytes: seq<byte>, order: ByteOrder, data: Destination) returns (err: Option<Error>)
    requires data.Pointer? ==> data.target.Valid()
    modifies if data.Pointer? then {data.target} else {}
    ensures data.Nil? ==> err == Some(Panicked(NilData))
    ensures data.NonPointer? ==> err == Some(NotPointer)
    ensures data.NilPointer? ==>
      var s := DecodeZero(data.elem, bytes);
      err == (if s.Failed? then Some(s.error) else None)
    ensures data.Pointer? ==> data.target.Valid()
    ensures data.Pointer? ==>
      var d := Decode(env, data.target.typ, old(data.target.val), bytes, order, true);
      data.target.val == d.value && err == (if d.status.Failed? then Some(d.status.error) else None)
  {
    match data {
      case Nil =>
        return Some(Panicked(NilData));
      case NonPointer(_) =>
        return Some(NotPointer);
      case NilPointer(t) =>
        var status := DecodeZero(t, bytes);
        err := if status.Failed? then Some(status.error) else None;
      case Pointer(target) =>
        var value, status := UpdateValueByType(env, target.typ, target.val, bytes, order, true);
        ShapeLemmas.DecodeKeepsShape(env, target.typ, target.val, bytes, order, true);
        target.val := value;
        err := if status.Failed? then Some(status.error) else None;
    }
  }

  /** Decodes one value of type `t` from the start of `bytes`. */
  method UpdateValueByType(env: Env, t: Type, v: Value, bytes: seq<byte>, order: ByteOrder, addressable: bool)
    returns (value: Value, status: Status)
    requires Matches(v, t)
    ensures Decoded(value, status) == Decode(env, t, v, bytes, order, addressable)
    decreases v, 0
  {
    match t {
      case IntT(size) =>
        var n := size.Bytes();
        if |bytes| < n { return v, OutOfRange; }
        if !addressable { return v, Unaddressable; }
        value, status := IntV(ToSigned(Word(bytes[..n], order), n)), Consumed(n);
      case UintT(size) =>
        var n := size.Bytes();
        if |bytes| < n { return v, OutOfRange; }
        if !addressable { return v, Unaddressable; }
        value, status := UintV(Word(bytes[..n], order)), Consumed(n);
      case FloatT(size) =>
        var n := size.Bytes();
        if |bytes| < n { return v, OutOfRange; }
        if !addressable { return v, Unaddressable; }
        value, status := FloatV(Word(bytes[..n], order)), Consumed(n);
      case StructT(name, fs) =>
        value, status := UpdateFields(env, name, fs, v.fields, bytes, order, addressable);
      case ArrayT(et, _) =>
        value, status := UpdateElems(env, et, v.elems, bytes, order, addressable);
      case SliceT(et) =>
        value, status := UpdateElems(env, et, v.elems, bytes, order, true);
      case InterfaceT =>
        if v.dyn.None? {
          return v, Failed(Panicked(NilInterface));
        }
        var dt, dv := v.dyn.value.typ, v.dyn.value.val;
        var inner;
        inner, status := UpdateValueByType(env, dt, dv, bytes, order, false);
        value := IfaceV(Some(Dynamic(dt, inner)));
      case StringT =>
        value, status := v, Failed(Unsupported(KindName(t)));
      case OtherT(_) =>
        value, status := v, Failed(Unsupported(KindName(t)));
    }
  }

  /** The struct loop: each field in declaration order, at the running offset. */
  method UpdateFields(env: Env, name: string, fs: seq<Field>, vs: seq<Value>, bytes: seq<byte>,
                      order: ByteOrder, addressable: bool)
    returns (value: Value, status: Status)
    requires |fs| == |vs|
    requires forall j :: 0 <= j < |vs| ==> Matches(vs[j], fs[j].typ)
    ensures Decoded(value, status) == DecodeFields(env, name, fs, vs, 0, [], 0, bytes, order, addressable)
    decreases vs, 0
  {
    ghost var spec := DecodeFields(env, name, fs, vs, 0, [], 0, bytes, order, addressable);
    var done: seq<Value> := [];
    var offset := 0;
    var i := 0;
    while i < |vs|
      invariant i <= |vs| && |done| == i
      invariant spec == DecodeFields(env, name, fs, vs, i, done, offset, bytes, order, addressable)
    {
      var fieldValue, fieldStatus := UpdateField(env, name, fs[i], vs[i], offset, bytes, order, addressable);
      if fieldStatus.Failed? {
        return StructV(done + [fieldValue] + vs[i + 1..]), fieldStatus;
      }
      done := done + [fieldValue];
      offset := offset + fieldStatus.count;
      i := i + 1;
    }
    value, status := StructV(done), Consumed(offset);
  }

  /** The array/slice loop: each element in turn, at the running offset. */
  method UpdateElems(env: Env, et: Type, vs: seq<Value>, bytes: seq<byte>, order: ByteOrder, addressable: bool)
    returns (value: Value, status: Status)
    requires forall j :: 0 <= j < |vs| ==> Matches(vs[j], et)
    ensures Decoded(value, status) == DecodeElems(env, et, vs, 0, [], 0, bytes, order, addressable)
    decreases vs, 0
  {
    var done: seq<Value> := [];
    var offset := 0;
    var i := 0;
    while i < |vs|
      invariant i <= |vs| && |done| == i
      invariant DecodeElems(env, et, vs, 0, [], 0, bytes, order, addressable)
             == DecodeElems(env, et, vs, i, done, offset, bytes, order, addressable)
    {
      if !(0 <= offset <= |bytes|) {
        return ElemsV(done + vs[i..]), OutOfRange;
      }
      var elemValue, elemStatus := UpdateValueByType(env, et, vs[i], bytes[offset..], order, addressable);
      if elemStatus.Failed? {
        return ElemsV(done + [elemValue] + vs[i + 1..]), elemStatus;
      }
      done := done + [elemValue];
      offset := offset + elemStatus.count;
      i := i + 1;
    }
    value, status := ElemsV(done), Consumed(offset);
  }

  /** One struct field at the running offset; `status` holds what the field adds to the offset. */
  method UpdateField(env: Env, structName: string, f: Field, v: Value, offset: int,
                     bytes: seq<byte>, order: ByteOrder, addressable: bool)
    returns (value: Value, status: Status)
    requires Matches(v, f.typ)
    ensures Decoded(value, status) == DecodeField(env, structName, f, v, offset, bytes, order, addressable)
    decreases v, 1
  {
    value := v;
    if !f.exported {
      return v, Consumed(env.typeSize(f.typ));
    }
    if IgnoreRequested(f.tag.ignore) {
      return v, Consumed(0);
    }
    if f.tag.fn != "" {
      var names := SplitComma(f.tag.fn);
      if |names| < 2 {
        return v, Failed(FnTagNeedsTwoNames(f.name));
      }
      if !addressable {
        return v, Unaddressable;
      }
      var hook := env.methodOf(structName, names[1]);
      if hook.None? {
        return v, Failed(HookNotFound(structName, names[1]));
      }
      if !(0 <= offset <= |bytes|) {
        return v, OutOfRange;
      }
      var hooked := DecodeViaHook(structName, names[1], hook.value, bytes[offset..]);
      if hooked.Err? {
        return v, Failed(hooked.error);
      }
      return v, Consumed(hooked.value);
    }
    if f.typ.StringT? {
      var length := ParseInt32(f.tag.length);
      if length.None? {
        return v, Failed(MissingLength(f.name));
      }
      if !(0 <= offset <= offset + length.value <= |bytes|) {
        return v, OutOfRange;
      }
      if !addressable {
        return v, Unaddressable;
      }
      return StrV(env.bytesToStr(bytes[offset..offset + length.value])), Consumed(length.value);
    }
    if !(0 <= offset <= |bytes|) {
      return v, OutOfRange;
    }
    value, status := UpdateValueByType(env, f.typ, v, bytes[offset..], order, addressable);
  }
}
