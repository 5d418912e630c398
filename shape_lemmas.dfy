/**
 * Decoding keeps the destination well-formed: the new value still matches
 * the destination's type, and the fields and elements written before the
 * loop reached index `i` are kept as written (an error does not roll back).
 */
module ShapeLemmas {
  import opened Options
  import opened Words
  import opened Tags
  import opened Shapes
  import opened Decoding

  lemma {:induction false} DecodeKeepsShape(env: Env, t: Type, v: Value, bytes: seq<byte>, order: ByteOrder, addressable: bool)
    requires Matches(v, t)
    ensures Matches(Decode(env, t, v, bytes, order, addressable).value, t)
    decreases v, 0
  {
    match t {
      case StructT(name, fs) =>
        FieldsKeepShape(env, name, fs, v.fields, 0, [], 0, bytes, order, addressable);
      case ArrayT(et, _) =>
        ElemsKeepShape(env, et, v.elems, 0, [], 0, bytes, order, addressable);
      case SliceT(et) =>
        ElemsKeepShape(env, et, v.elems, 0, [], 0, bytes, order, true);
      case InterfaceT =>
        if v.dyn.Some? {
          DecodeKeepsShape(env, v.dyn.value.typ, v.dyn.value.val, bytes, order, false);
        }
      case _ =>
    }
  }

  lemma {:induction false} FieldKeepsShape(env: Env, structName: string, f: Field, v: Value, offset: int,
                                           bytes: seq<byte>, order: ByteOrder, addressable: bool)
    requires Matches(v, f.typ)
    ensures Matches(DecodeField(env, structName, f, v, offset, bytes, order, addressable).value, f.typ)
    decreases v, 1
  {
    if f.exported && !IgnoreRequested(f.tag.ignore) && f.tag.fn == "" && !f.typ.StringT? && 0 <= offset <= |bytes| {
      DecodeKeepsShape(env, f.typ, v, bytes[offset..], order, addressable);
    }
  }

  /** `r` holds as many fields as `vs`, each well-formed, and starts with `done`. */
  predicate FieldsShaped(r: Value, vs: seq<Value>, done: seq<Value>, fs: seq<Field>)
  {
    r.StructV? && |r.fields| == |vs| && |done| <= |vs| && r.fields[..|done|] == done && FieldsMatch(r.fields, fs)
  }

  lemma {:induction false} FieldsKeepShape(env: Env, name: string, fs: seq<Field>, vs: seq<Value>, i: nat, done: seq<Value>,
                                           offset: int, bytes: seq<byte>, order: ByteOrder, addressable: bool)
    requires i <= |vs| && |done| == i
    requires FieldsMatch(vs, fs) && FieldsMatch(done, fs[..i])
    ensures FieldsShaped(DecodeFields(env, name, fs, vs, i, done, offset, bytes, order, addressable).value, vs, done, fs)
    decreases vs, |vs| - i
  {
    if i < |vs| {
      var d := DecodeField(env, name, fs[i], vs[i], offset, bytes, order, addressable);
      FieldKeepsShape(env, name, fs[i], vs[i], offset, bytes, order, addressable);
      FieldsStep(env, name, fs, vs, i, done, offset, bytes, order, addressable);
      if d.status.Consumed? {
        ExtendDone(fs, done, d.value);
        FieldsKeepShape(env, name, fs, vs, i + 1, done + [d.value], offset + d.status.count, bytes, order, addressable);
        FieldsShapedShrink(DecodeFields(env, name, fs, vs, i, done, offset, bytes, order, addressable).value, vs, done, d.value, fs);
      } else {
        SpliceKeepsFields(fs, vs, done, d.value, i);
      }
    }
  }

  /** Appending a well-formed value for field `|done|` to the written prefix. */
  lemma ExtendDone(fs: seq<Field>, done: seq<Value>, x: Value)
    requires |done| < |fs| && FieldsMatch(done, fs[..|done|]) && Matches(x, fs[|done|].typ)
    ensures FieldsMatch(done + [x], fs[..|done| + 1])
  {
    var s := done + [x];
    forall j | 0 <= j < |s|
      ensures Matches(s[j], fs[..|done| + 1][j].typ)
    {
      if j < |done| {
        assert s[j] == done[j] && fs[..|done| + 1][j] == fs[..|done|][j];
      }
    }
  }

  lemma FieldsShapedShrink(r: Value, vs: seq<Value>, done: seq<Value>, x: Value, fs: seq<Field>)
    requires FieldsShaped(r, vs, done + [x], fs)
    ensures FieldsShaped(r, vs, done, fs)
  {
    PrefixOfPrefix(r.fields, done, x);
  }

  /** `r` holds as many elements as `vs`, each well-formed, and starts with `done`. */
  predicate ElemsShaped(r: Value, vs: seq<Value>, done: seq<Value>, et: Type)
  {
    r.ElemsV? && |r.elems| == |vs| && |done| <= |vs| && r.elems[..|done|] == done && AllMatch(r.elems, et)
  }

  lemma {:induction false} ElemsKeepShape(env: Env, et: Type, vs: seq<Value>, i: nat, done: seq<Value>, offset: int,
                                          bytes: seq<byte>, order: ByteOrder, addressable: bool)
    requires i <= |vs| && |done| == i
    requires AllMatch(vs, et) && AllMatch(done, et)
    ensures ElemsShaped(DecodeElems(env, et, vs, i, done, offset, bytes, order, addressable).value, vs, done, et)
    decreases vs, |vs| - i
  {
    if i < |vs| {
      if 0 <= offset <= |bytes| && Decode(env, et, vs[i], bytes[offset..], order, addressable).status.Consumed? {
        var d := Decode(env, et, vs[i], bytes[offset..], order, addressable);
        DecodeKeepsShape(env, et, vs[i], bytes[offset..], order, addressable);
        ElemsStep(env, et, vs, i, done, offset, bytes, order, addressable);
        ElemsKeepShape(env, et, vs, i + 1, done + [d.value], offset + d.status.count, bytes, order, addressable);
        ElemsShapedShrink(DecodeElems(env, et, vs, i, done, offset, bytes, order, addressable).value, vs, done, d.value, et);
      } else {
        ElemsStopShape(env, et, vs, i, done, offset, bytes, order, addressable);
      }
    }
  }

  /** The element loop stopping at element `i`, out of range or on its error, leaves a well-formed value. */
  lemma ElemsStopShape(env: Env, et: Type, vs: seq<Value>, i: nat, done: seq<Value>, offset: int,
                       bytes: seq<byte>, order: ByteOrder, addressable: bool)
    requires i < |vs| && |done| == i
    requires AllMatch(vs, et) && AllMatch(done, et)
    requires 0 <= offset <= |bytes| ==> Decode(env, et, vs[i], bytes[offset..], order, addressable).status.Failed?
    ensures ElemsShaped(DecodeElems(env, et, vs, i, done, offset, bytes, order, addressable).value, vs, done, et)
    decreases vs, 0
  {
    if !(0 <= offset <= |bytes|) {
      assert DecodeElems(env, et, vs, i, done, offset, bytes, order, addressable).value == ElemsV(done + vs[i..]) by {
        ElemsStep(env, et, vs, i, done, offset, bytes, order, addressable);
      }
      SpliceKeepsElems(et, vs, done, vs[i], i);
      assert done + [vs[i]] + vs[i + 1..] == done + vs[i..];
    } else {
      var d := Decode(env, et, vs[i], bytes[offset..], order, addressable);
      assert DecodeElems(env, et, vs, i, done, offset, bytes, order, addressable).value
          == ElemsV(done + [d.value] + vs[i + 1..]) by {
        ElemsStep(env, et, vs, i, done, offset, bytes, order, addressable);
      }
      DecodeKeepsShape(env, et, vs[i], bytes[offset..], order, addressable);
      SpliceKeepsElems(et, vs, done, d.value, i);
    }
  }

  lemma ElemsShapedShrink(r: Value, vs: seq<Value>, done: seq<Value>, x: Value, et: Type)
    requires ElemsShaped(r, vs, done + [x], et)
    ensures ElemsShaped(r, vs, done, et)
  {
    PrefixOfPrefix(r.elems, done, x);
  }

  /** A sequence that starts with `done + [x]` starts with `done`. */
  lemma PrefixOfPrefix(s: seq<Value>, done: seq<Value>, x: Value)
    requires |done| < |s| && s[..|done| + 1] == done + [x]
    ensures s[..|done|] == done
  {
    assert s[..|done|] == s[..|done| + 1][..|done|];
  }

  /** Replacing field `i` of a well-formed struct by a well-formed value, after the new `done` prefix. */
  lemma SpliceKeepsFields(fs: seq<Field>, vs: seq<Value>, done: seq<Value>, x: Value, i: nat)
    requires i < |vs| && |done| == i
    requires FieldsMatch(vs, fs) && FieldsMatch(done, fs[..i])
    requires Matches(x, fs[i].typ)
    ensures FieldsShaped(StructV(done + [x] + vs[i + 1..]), vs, done, fs)
  {
    var s := done + [x] + vs[i + 1..];
    assert s[..i] == done;
    forall j | 0 <= j < |s|
      ensures Matches(s[j], fs[j].typ)
    {
      if j < i {
        assert s[j] == done[j] && fs[..i][j] == fs[j];
      } else if j == i {
        assert s[j] == x;
      } else {
        assert s[j] == vs[j];
      }
    }
  }

  /** Replacing element `i` of well-formed elements by a well-formed value, after the new `done` prefix. */
  lemma SpliceKeepsElems(et: Type, vs: seq<Value>, done: seq<Value>, x: Value, i: nat)
    requires i < |vs| && |done| == i
    requires AllMatch(vs, et) && AllMatch(done, et)
    requires Matches(x, et)
    ensures ElemsShaped(ElemsV(done + [x] + vs[i + 1..]), vs, done, et)
  {
    var s := done + [x] + vs[i + 1..];
    assert s[..i] == done;
    forall j | 0 <= j < |s|
      ensures Matches(s[j], et)
    {
      if j < i {
        assert s[j] == done[j];
      } else if j == i {
        assert s[j] == x;
      } else {
        assert s[j] == vs[j];
      }
    }
  }

  /**
   * An unexported field and a field whose `bytes_ignore` tag is true are
   * never written, whatever the outcome of the decode.
   */
  lemma SkippedFieldUntouched(env: Env, name: string, fs: seq<Field>, v: Value, bytes: seq<byte>,
                              order: ByteOrder, addressable: bool, k: nat)
    requires Matches(v, StructT(name, fs)) && k < |fs|
    requires !fs[k].exported || IgnoreRequested(fs[k].tag.ignore)
    ensures var r := Decode(env, StructT(name, fs), v, bytes, order, addressable);
      r.value.StructV? && |r.value.fields| == |fs| && r.value.fields[k] == v.fields[k]
  {
    FieldsKeepShape(env, name, fs, v.fields, 0, [], 0, bytes, order, addressable);
    FieldsSkipUntouched(env, name, fs, v.fields, 0, [], 0, bytes, order, addressable, k);
  }

  lemma {:induction false} FieldsSkipUntouched(env: Env, name: string, fs: seq<Field>, vs: seq<Value>, i: nat, done: seq<Value>,
                                               offset: int, bytes: seq<byte>, order: ByteOrder, addressable: bool, k: nat)
    requires i <= |vs| && |done| == i && k < |vs|
    requires FieldsMatch(vs, fs)
    requires !fs[k].exported || IgnoreRequested(fs[k].tag.ignore)
    requires k < i ==> done[k] == vs[k]
    ensures var r := DecodeFields(env, name, fs, vs, i, done, offset, bytes, order, addressable);
      r.value.StructV? && k < |r.value.fields| && r.value.fields[k] == vs[k]
    decreases |vs| - i
  {
    if i < |vs| {
      var d := DecodeField(env, name, fs[i], vs[i], offset, bytes, order, addressable);
      FieldsStep(env, name, fs, vs, i, done, offset, bytes, order, addressable);
      if d.status.Consumed? {
        assert k == i ==> d.value == vs[k];
        FieldsSkipUntouched(env, name, fs, vs, i + 1, done + [d.value], offset + d.status.count, bytes, order, addressable, k);
      } else {
        var s := done + [d.value] + vs[i + 1..];
        if k < i {
          assert s[k] == done[k];
        } else {
          assert s[k] == vs[k];
        }
      }
    }
  }
}
