/**
 * The rules the struct loop of `updateValueByTypeFromBytes` applies to one
 * field, in the order it applies them: unexported fields are padding,
 * `bytes_ignore:"true"` fields take no bytes, `bytes_fn` fields go through
 * the decode hook, string fields need `bytes_length`; and what happens to
 * the rest of a struct or array once one member fails.
 */
module FieldRules {
  import opened Options
  import opened Words
  import opened Tags
  import opened Shapes
  import opened Hooks
  import opened Decoding

  /**
   * A field the decoder cannot reach (unexported) is skipped whatever its
   * tags say: it is not written and it advances the offset by its type's size.
   */
  lemma UnexportedFieldIsPadding(env: Env, name: string, f: Field, v: Value, offset: int,
                                 bytes: seq<byte>, order: ByteOrder, addressable: bool)
    requires Matches(v, f.typ) && !f.exported
    ensures DecodeField(env, name, f, v, offset, bytes, order, addressable) == Decoded(v, Consumed(env.typeSize(f.typ)))
  {
  }

  /**
   * `bytes_ignore`: a tag that parses as true skips the field without
   * consuming anything; any other tag (false, or not a boolean at all)
   * decodes the field exactly as if the tag were absent.
   */
  lemma IgnoreTagRule(env: Env, name: string, f: Field, v: Value, offset: int,
                      bytes: seq<byte>, order: ByteOrder, addressable: bool)
    requires Matches(v, f.typ) && f.exported
    ensures f.tag.ignore in TrueSpellings ==>
      DecodeField(env, name, f, v, offset, bytes, order, addressable) == Decoded(v, Consumed(0))
    ensures f.tag.ignore !in TrueSpellings ==>
      DecodeField(env, name, f, v, offset, bytes, order, addressable)
        == DecodeField(env, name, f.(tag := f.tag.(ignore := "")), v, offset, bytes, order, addressable)
  {
    IgnoreRequestedSpellings(f.tag.ignore);
    IgnoreRequestedSpellings("");
  }

  /**
   * `bytes_fn`: a tag without a comma names no decode hook and is an error;
   * the field's value is never written by the decoder itself; with a
   * hook found on the struct's pointer type, the field adds exactly the
   * hook's count to the offset and a hook's failure is the struct's error.
   */
  lemma HookFieldRule(env: Env, name: string, f: Field, v: Value, offset: int,
                      bytes: seq<byte>, order: ByteOrder, addressable: bool)
    requires Matches(v, f.typ) && f.exported && !IgnoreRequested(f.tag.ignore) && f.tag.fn != ""
    ensures var r := DecodeField(env, name, f, v, offset, bytes, order, addressable);
      && r.value == v
      && (',' !in f.tag.fn ==> r.status == Failed(FnTagNeedsTwoNames(f.name)))
      && (|SplitComma(f.tag.fn)| >= 2 && addressable ==>
            var hook := SplitComma(f.tag.fn)[1];
            && (env.methodOf(name, hook).None? ==> r.status == Failed(HookNotFound(name, hook)))
            && (env.methodOf(name, hook).Some? && 0 <= offset <= |bytes| ==>
                  var res := DecodeViaHook(name, hook, env.methodOf(name, hook).value, bytes[offset..]);
                  && (res.Ok? ==> r.status == Consumed(res.value))
                  && (res.Err? ==> r.status == Failed(res.error))))
  {
    TwoNamesIffComma(f.tag.fn);
  }

  /**
   * String fields: a `bytes_length` that is not a base-10 int32 is an
   * error (and only then is that error reported); otherwise the field is
   * exactly the `length` bytes at the running offset.
   */
  lemma StringFieldRule(env: Env, name: string, f: Field, v: Value, offset: int,
                        bytes: seq<byte>, order: ByteOrder, addressable: bool)
    requires Matches(v, f.typ) && f.exported && !IgnoreRequested(f.tag.ignore) && f.tag.fn == "" && f.typ == StringT
    ensures var r := DecodeField(env, name, f, v, offset, bytes, order, addressable);
      && (r.status == Failed(MissingLength(f.name)) <==> ParseInt32(f.tag.length).None?)
      && (ParseInt32(f.tag.length).Some? && addressable ==>
            var length := ParseInt32(f.tag.length).value;
            (0 <= offset && 0 <= length && offset + length <= |bytes| ==>
              r == Decoded(StrV(env.bytesToStr(bytes[offset..offset + length])), Consumed(length))))
  {
  }

  /** A length written in decimal, as `bytes_length:"n"`, is read back as `n`. */
  lemma StringLengthTag(env: Env, name: string, f: Field, v: Value, offset: int, bytes: seq<byte>,
                        order: ByteOrder, n: int)
    requires Matches(v, f.typ) && f.exported && !IgnoreRequested(f.tag.ignore) && f.tag.fn == "" && f.typ == StringT
    requires f.tag.length == FormatInt(n) && 0 <= n <= MaxInt32
    requires 0 <= offset && offset + n <= |bytes|
    ensures DecodeField(env, name, f, v, offset, bytes, order, true)
         == Decoded(StrV(env.bytesToStr(bytes[offset..offset + n])), Consumed(n))
  {
    ParseFormatInt32(n);
  }

  /**
   * An interface consumes exactly what its concrete value consumes and
   * fails exactly when that fails; a concrete scalar cannot be set through
   * the interface, and an empty interface cannot be decoded at all.
   */
  lemma InterfaceDecodesConcrete(env: Env, v: Value, bytes: seq<byte>, order: ByteOrder, addressable: bool)
    requires Matches(v, InterfaceT)
    ensures var r := Decode(env, InterfaceT, v, bytes, order, addressable);
      && (v.dyn.None? ==> r == Decoded(v, Failed(Panicked(NilInterface))))
      && (v.dyn.Some? ==>
            var dt, dv := v.dyn.value.typ, v.dyn.value.val;
            && r.status == Decode(env, dt, dv, bytes, order, false).status
            && r.value == IfaceV(Some(Dynamic(dt, Decode(env, dt, dv, bytes, order, false).value)))
            && (IsScalar(dt) && Width(dt) <= |bytes| ==> r.status == Unaddressable))
  {
  }

  /** Kinds the decoder has no case for, a bare string included, are refused with their kind's name. */
  lemma UnsupportedKinds(env: Env, t: Type, v: Value, bytes: seq<byte>, order: ByteOrder, addressable: bool)
    requires Matches(v, t) && (t.StringT? || t.OtherT?)
    ensures Decode(env, t, v, bytes, order, addressable) == Decoded(v, Failed(Unsupported(KindName(t))))
  {
  }

  /**
   * The struct loop, started at field `i` with the new values `done` at
   * offset `offset`, gets as far as field `k` with the new values `doneK`
   * at offset `o`, every field on the way decoding successfully.
   */
  predicate FieldsReach(env: Env, name: string, fs: seq<Field>, vs: seq<Value>, i: nat, done: seq<Value>, offset: int,
                        bytes: seq<byte>, order: ByteOrder, addressable: bool, k: nat, doneK: seq<Value>, o: int)
    requires FieldsMatch(vs, fs) && i <= k <= |vs|
    decreases k - i
  {
    if i == k then done == doneK && offset == o
    else
      var d := DecodeField(env, name, fs[i], vs[i], offset, bytes, order, addressable);
      d.status.Consumed? &&
      FieldsReach(env, name, fs, vs, i + 1, done + [d.value], offset + d.status.count, bytes, order, addressable, k, doneK, o)
  }

  /**
   * When the struct loop fails, it failed at the first field `k` that did
   * not decode: the loop reaches `k` at offset `o` through fields that all
   * decoded, `k` fails there, and its error is the struct's error. The
   * fields after `k` keep their old values.
   */
  lemma {:induction false} FieldsFailureStops(env: Env, name: string, fs: seq<Field>, vs: seq<Value>, i: nat,
                                              done: seq<Value>, offset: int, bytes: seq<byte>, order: ByteOrder,
                                              addressable: bool)
    returns (k: nat, o: int)
    requires i <= |vs| && |done| == i && FieldsMatch(vs, fs)
    requires DecodeFields(env, name, fs, vs, i, done, offset, bytes, order, addressable).status.Failed?
    ensures var r := DecodeFields(env, name, fs, vs, i, done, offset, bytes, order, addressable);
      && i <= k < |vs|
      && r.value.StructV? && |r.value.fields| == |vs|
      && FieldsReach(env, name, fs, vs, i, done, offset, bytes, order, addressable, k, r.value.fields[..k], o)
      && var d := DecodeField(env, name, fs[k], vs[k], o, bytes, order, addressable);
      && d.status.Failed? && r.status == d.status && r.value.fields[k] == d.value
      && r.value.fields[k + 1..] == vs[k + 1..]
    decreases |vs| - i
  {
    var d := DecodeField(env, name, fs[i], vs[i], offset, bytes, order, addressable);
    if d.status.Failed? {
      k, o := i, offset;
      FieldsStopHere(env, name, fs, vs, i, done, offset, bytes, order, addressable);
    } else {
      assert DecodeFields(env, name, fs, vs, i, done, offset, bytes, order, addressable)
          == DecodeFields(env, name, fs, vs, i + 1, done + [d.value], offset + d.status.count, bytes, order, addressable) by {
        FieldsStep(env, name, fs, vs, i, done, offset, bytes, order, addressable);
      }
      k, o := FieldsFailureStops(env, name, fs, vs, i + 1, done + [d.value], offset + d.status.count,
                                 bytes, order, addressable);
    }
  }

  /** The struct loop stopping at field `i`: its error is that field's, and the later fields are untouched. */
  lemma FieldsStopHere(env: Env, name: string, fs: seq<Field>, vs: seq<Value>, i: nat,
                       done: seq<Value>, offset: int, bytes: seq<byte>, order: ByteOrder, addressable: bool)
    requires i < |vs| && |done| == i && FieldsMatch(vs, fs)
    requires DecodeField(env, name, fs[i], vs[i], offset, bytes, order, addressable).status.Failed?
    ensures var r := DecodeFields(env, name, fs, vs, i, done, offset, bytes, order, addressable);
      var d := DecodeField(env, name, fs[i], vs[i], offset, bytes, order, addressable);
      && r.status == d.status
      && r.value.StructV? && |r.value.fields| == |vs|
      && r.value.fields[..i] == done
      && r.value.fields[i] == d.value
      && r.value.fields[i + 1..] == vs[i + 1..]
  {
    FieldsStep(env, name, fs, vs, i, done, offset, bytes, order, addressable);
    SpliceParts(done, DecodeField(env, name, fs[i], vs[i], offset, bytes, order, addressable).value, vs[i + 1..]);
  }

  /**
   * The array/slice loop, started at element `i` with the new values `done`
   * at offset `offset`, gets as far as element `k` with the new values
   * `doneK` at offset `o`, every element on the way decoding successfully.
   */
  predicate ElemsReach(env: Env, et: Type, vs: seq<Value>, i: nat, done: seq<Value>, offset: int,
                       bytes: seq<byte>, order: ByteOrder, addressable: bool, k: nat, doneK: seq<Value>, o: int)
    requires AllMatch(vs, et) && i <= k <= |vs|
    decreases k - i
  {
    if i == k then done == doneK && offset == o
    else if !(0 <= offset <= |bytes|) then false
    else
      var d := Decode(env, et, vs[i], bytes[offset..], order, addressable);
      d.status.Consumed? &&
      ElemsReach(env, et, vs, i + 1, done + [d.value], offset + d.status.count, bytes, order, addressable, k, doneK, o)
  }

  /** How element `k` ends at offset `o`: out of range, or as its own decode ends. */
  function ElemAt(env: Env, et: Type, v: Value, o: int, bytes: seq<byte>, order: ByteOrder, addressable: bool): Decoded
    requires Matches(v, et)
  {
    if !(0 <= o <= |bytes|) then Decoded(v, OutOfRange) else Decode(env, et, v, bytes[o..], order, addressable)
  }

  /**
   * The same for the array/slice loop: it failed at the first element `k`
   * that did not decode (or whose offset left the buffer), with that
   * element's error, and the elements after `k` keep their old values.
   */
  lemma {:induction false} ElemsFailureStops(env: Env, et: Type, vs: seq<Value>, i: nat, done: seq<Value>,
                                             offset: int, bytes: seq<byte>, order: ByteOrder, addressable: bool)
    returns (k: nat, o: int)
    requires i <= |vs| && |done| == i && AllMatch(vs, et)
    requires DecodeElems(env, et, vs, i, done, offset, bytes, order, addressable).status.Failed?
    ensures var r := DecodeElems(env, et, vs, i, done, offset, bytes, order, addressable);
      && i <= k < |vs|
      && r.value.ElemsV? && |r.value.elems| == |vs|
      && ElemsReach(env, et, vs, i, done, offset, bytes, order, addressable, k, r.value.elems[..k], o)
      && var d := ElemAt(env, et, vs[k], o, bytes, order, addressable);
      && d.status.Failed? && r.status == d.status && r.value.elems[k] == d.value
      && r.value.elems[k + 1..] == vs[k + 1..]
    decreases |vs| - i
  {
    if ElemAt(env, et, vs[i], offset, bytes, order, addressable).status.Failed? {
      k, o := i, offset;
      ElemsStopHere(env, et, vs, i, done, offset, bytes, order, addressable);
    } else {
      var d := Decode(env, et, vs[i], bytes[offset..], order, addressable);
      assert DecodeElems(env, et, vs, i, done, offset, bytes, order, addressable)
          == DecodeElems(env, et, vs, i + 1, done + [d.value], offset + d.status.count, bytes, order, addressable) by {
        ElemsStep(env, et, vs, i, done, offset, bytes, order, addressable);
      }
      k, o := ElemsFailureStops(env, et, vs, i + 1, done + [d.value], offset + d.status.count, bytes, order, addressable);
    }
  }

  /** The element loop stopping at element `i`: its error is that element's, and the later elements are untouched. */
  lemma ElemsStopHere(env: Env, et: Type, vs: seq<Value>, i: nat, done: seq<Value>,
                      offset: int, bytes: seq<byte>, order: ByteOrder, addressable: bool)
    requires i < |vs| && |done| == i && AllMatch(vs, et)
    requires ElemAt(env, et, vs[i], offset, bytes, order, addressable).status.Failed?
    ensures var r := DecodeElems(env, et, vs, i, done, offset, bytes, order, addressable);
      var d := ElemAt(env, et, vs[i], offset, bytes, order, addressable);
      && r.status == d.status
      && r.value.ElemsV? && |r.value.elems| == |vs|
      && r.value.elems[..i] == done
      && r.value.elems[i] == d.value
      && r.value.elems[i + 1..] == vs[i + 1..]
  {
    ElemsStep(env, et, vs, i, done, offset, bytes, order, addressable);
    if !(0 <= offset <= |bytes|) {
      assert vs[i..] == [vs[i]] + vs[i + 1..];
      SpliceParts(done, vs[i], vs[i + 1..]);
    } else {
      SpliceParts(done, Decode(env, et, vs[i], bytes[offset..], order, addressable).value, vs[i + 1..]);
    }
  }

  lemma SpliceParts(done: seq<Value>, x: Value, rest: seq<Value>)
    ensures var s := done + [x] + rest;
      |s| == |done| + 1 + |rest| && s[..|done|] == done && s[|done|] == x && s[|done| + 1..] == rest
  {
    var s := done + [x] + rest;
    assert s[..|done|] == done;
    assert s[|done| + 1..] == rest;
  }
}
