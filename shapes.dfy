/**
 * The destination of a decode, described without reflection: a `Type`
 * for what `reflect.Type` reports (its kind, a struct's fields with their
 * tags, an array's element type and length) and a `Value` for what
 * `reflect.Value` holds (the numbers, texts, field values and elements, and
 * the concrete type and value an interface holds). `Matches(v, t)` is the
 * agreement between the two that reflection always maintains.
 */
module Shapes {
  import opened Options
  import opened Words

  /** The widths of Go's int8/16/32/64 and uint8/16/32/64. */
  datatype IntSize = Size8 | Size16 | Size32 | Size64
  {
    function Bytes(): nat
    {
      match this
      case Size8 => 1
      case Size16 => 2
      case Size32 => 4
      case Size64 => 8
    }
  }

  /** The widths of Go's float32 and float64. */
  datatype FloatSize = Float32 | Float64
  {
    function Bytes(): nat
    {
      match this
      case Float32 => 4
      case Float64 => 8
    }
  }

  /**
   * The three tags the decoder reads, each as `Tag.Get` returns it: the
   * empty string when the tag is absent.
   */
  datatype Tag = Tag(ignore: string, fn: string, length: string)

  datatype Type =
    | IntT(isize: IntSize)
    | UintT(usize: IntSize)
    | FloatT(fsize: FloatSize)
    | StringT
    | StructT(name: string, fields: seq<Field>)
    | ArrayT(elem: Type, len: nat)
    | SliceT(elem: Type)
    | InterfaceT
      /** Every other kind (bool, int, uintptr, map, pointer, ...), by name. */
    | OtherT(kind: string)

  /** A struct field: `exported` is whether reflection lets the decoder use it. */
  datatype Field = Field(name: string, exported: bool, tag: Tag, typ: Type)

  /** Float values are kept as their IEEE-754 bit pattern. */
  datatype Value =
    | IntV(i: int)
    | UintV(u: nat)
    | FloatV(bits: nat)
    | StrV(s: string)
    | StructV(fields: seq<Value>)
    | ElemsV(elems: seq<Value>)
    | IfaceV(dyn: Option<Dynamic>)
    | OpaqueV

  /** The concrete type and value held by a non-nil interface. */
  datatype Dynamic = Dynamic(typ: Type, val: Value)

  /** The value `v` is one that a variable of type `t` can hold. */
  predicate Matches(v: Value, t: Type)
    decreases v
  {
    match t
    case IntT(s) => v.IntV? && -(Pow256(s.Bytes()) as int) / 2 <= v.i < Pow256(s.Bytes()) / 2
    case UintT(s) => v.UintV? && v.u < Pow256(s.Bytes())
    case FloatT(s) => v.FloatV? && v.bits < Pow256(s.Bytes())
    case StringT => v.StrV?
    case StructT(_, fs) =>
      v.StructV? && |v.fields| == |fs| && forall j :: 0 <= j < |fs| ==> Matches(v.fields[j], fs[j].typ)
    case ArrayT(et, n) =>
      v.ElemsV? && |v.elems| == n && forall j :: 0 <= j < n ==> Matches(v.elems[j], et)
    case SliceT(et) =>
      v.ElemsV? && forall j :: 0 <= j < |v.elems| ==> Matches(v.elems[j], et)
    case InterfaceT =>
      v.IfaceV? && (v.dyn.Some? ==> !v.dyn.value.typ.InterfaceT? && Matches(v.dyn.value.val, v.dyn.value.typ))
    case OtherT(_) => v.OpaqueV?
  }

  /** Every value of `vs` is one an element of type `et` can hold. */
  predicate AllMatch(vs: seq<Value>, et: Type)
  {
    forall j :: 0 <= j < |vs| ==> Matches(vs[j], et)
  }

  /** The values `vs` are ones the fields `fs` can hold, field by field. */
  predicate FieldsMatch(vs: seq<Value>, fs: seq<Field>)
  {
    |vs| == |fs| && forall j :: 0 <= j < |vs| ==> Matches(vs[j], fs[j].typ)
  }

  /** What `Type.Kind()` prints for the kinds the decoder rejects. */
  function KindName(t: Type): string
    requires t.StringT? || t.OtherT?
  {
    match t
    case StringT => "string"
    case OtherT(kind) => kind
  }

  /**
   * The parameter and result types of a hook method, classified the way
   * the signature checks see them: the receiver (a pointer for every
   * method found on the pointer type), exactly `[]byte`, exactly `int`, a
   * named type whose kind is int, a type implementing `error`, anything else.
   */
  datatype ParamType = PointerParam | ByteSliceParam | IntParam | NamedIntParam | ErrorParam | OtherParam

  /** What a hook returns: its count, and the message of a non-nil error. */
  datatype HookReturn = HookReturn(count: int, err: Option<string>)

  /** A method: its receiver and parameter types, its result types, and what calling it returns. */
  datatype Method = Method(params: seq<ParamType>, results: seq<ParamType>, call: seq<byte> -> HookReturn)

  /**
   * The collaborators defined outside the decoder: the static size of a
   * type (`typeSize`), the conversion of raw bytes to a string
   * (`bytesToStr`), and the methods of a struct's pointer type by struct
   * name and method name (`MethodByName`).
   */
  datatype Env = Env(
    typeSize: Type -> nat,
    bytesToStr: seq<byte> -> string,
    methodOf: (string, string) -> Option<Method>)

  /** Run-time panics of the source, which abort the decode like an error. */
  datatype Panic =
    | SliceOutOfRange      // a slice expression or index outside the buffer
    | UnaddressableValue   // Set*/Addr on a value reached through an interface
    | NilInterface         // Type() of an empty interface's element
    | ValueReceiver        // the explicit panic for a hook whose receiver is not a pointer
    | NilData              // Kind() of the nil Type that an untyped nil `data` has
    | ZeroValue            // Set*, Field, Len or Elem on the zero Value a nil pointer points to

  datatype Error =
    | NotPointer
    | FnTagNeedsTwoNames(field: string)
    | HookNotFound(structName: string, hook: string)
    | HookArgCount(structName: string, hook: string)
    | HookArgNotBytes(structName: string, hook: string)
    | HookResultCount(structName: string, hook: string)
    | HookFirstResultNotInt(structName: string, hook: string)
    | HookSecondResultNotError(structName: string, hook: string)
    | HookFailed(message: string)
    | MissingLength(field: string)
    | Unsupported(kind: string)
    | Panicked(reason: Panic)
}
