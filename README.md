# go-convert-to-bytes: the bytes-to-data decoder, in Dafny

This project models the decoder in `bytes_to_data.go`. The decoder fills a Go
value from a byte buffer in a given byte order, walking the value's type:

- fixed-width signed and unsigned integers and floats are read from the
  front of the buffer;
- structs are read field by field in declaration order, at a running offset,
  and four field rules apply:
  - unexported fields are padding of their type's size;
  - `bytes_ignore:"true"` fields take no bytes;
  - `bytes_fn:"enc,dec"` fields are read by a decode hook method `dec` of the struct;
  - string fields take exactly `bytes_length` bytes;
- arrays and slices are read element by element;
- an interface is read as the concrete value it holds;
- every other kind is refused.

The first error stops the whole decode. `ConvertBytesToData` accepts only a
pointer and decodes into what it points to. An untyped nil panics on the kind
check. A nil pointer passes it and is decoded into reflection's zero Value,
which cannot be written.

Reflection is replaced by two datatypes (`Shapes`):

- `Type` is the destination's type: integer and float widths, struct fields
  with their tags and exportedness, arrays, slices, interfaces and other kinds.
- `Value` is the destination's current value, a tree that matches its `Type`.

The collaborators defined outside the file are parameters, bundled in `Env`:

- `typeSize`, the static size of a type;
- `bytesToStr`, the conversion of a byte window to a string;
- `methodOf`, the method a struct's pointer type has under a name. A `Method`
  gives its parameter and result shapes and its call, a function from the
  bytes to a count and an optional error.

A Go panic is a failure outcome, `Failed(Panicked(reason))`. The reasons are:

- a slice expression out of range, for example `bytes[:2]` on a shorter buffer;
- a write to a value reflection cannot set;
- an empty interface;
- the `panic(123)` on a value receiver;
- the kind of an untyped nil (`NilData`);
- a write, `Field`, `Len` or `Elem` on the zero Value behind a nil pointer
  (`ZeroValue`).

The decoder therefore never reads past the buffer. A slice that is too short
makes the decode fail with `OutOfRange`.

Writes are tracked with the `addressable` flag, which stands for reflection's
CanAddr:

- everything reached from the pointer can be set;
- slice elements can always be set;
- the content of an interface never can.

Modules:

- `Words`: byte-order word assembly (as `encoding/binary` does it) and its
  inverse, plus two's-complement conversions and truncation.
- `Tags`: `strings.Split` on commas, `strconv.ParseBool`, and
  `strconv.ParseInt(s, 10, 32)`, with their printers.
- `Hooks`: `decodeValueViaFunc`.
- `Decoding`: the decoder as functions. `Decode` handles one value,
  `DecodeFields` is the struct loop, `DecodeField` handles one field, and
  `DecodeElems` is the array/slice loop.
- `Decoder`: `updateValueByTypeFromBytes` and `ConvertBytesToData` as the
  source writes them, with one exception: the uint32 case stores the word
  itself, the corrected behaviour described under Findings. They are a
  recursive procedure with `while` loops that accumulate the offset, plus a
  `Variable` class the pointer points to. Each method is proved to compute
  what `Decoding` specifies.
- `Scalars`, `AsWritten`, `FieldRules`, `DecodeExamples`, `Consumption`,
  `Bounds`, `ShapeLemmas`: the properties.

In the function form, a failed decode returns the destination's value as the
writes before the error left it. Nothing is rolled back. No byte count is
returned: the source returns offset 0 together with the error, and the caller
discards it.

The code documents none of the following. A reader might expect them of a
decoder like this one, and the model does not adopt them, because the code
does not do them:

- Strings are not trimmed of trailing NULs by the decoder. Whatever
  `bytesToStr` does is abstract here.
- A `bytes_length` of 0 is accepted, and a negative one makes the slice
  expression fail. No check requires the length to be positive.
- A buffer that is too short makes a slice expression panic. There is no
  separate overrun error.
- A value receiver on a hook triggers `panic(123)`. It is modelled as the
  panic `Panicked(ValueReceiver)`, not as one of the returned signature
  errors, although `Hooks.IsSignatureRejection` counts it among the ways a
  hook's signature is rejected.
- Ignored fields take no bytes, and unexported fields take their static size.

## Model

| member | source | states |
|---|---|---|
| Decoder.ConvertBytesToData | bytes_to_data.go:14-23 | A non-pointer destination is refused with `NotPointer` and nothing is written. An untyped nil panics (`NilData`). A nil pointer ends as `DecodeZero` of its element type. Otherwise the pointed-to variable ends up holding the decoded value, also on failure, and the error is the decode's error. The variable keeps matching its type. |
| Decoding.DecodeZero | bytes_to_data.go:20-143 | Decoding into the zero Value behind a nil pointer succeeds only for a struct without fields, consuming 0 bytes. Every other supported kind panics, and a bare string or unsupported kind is refused as unsupported. |
| Decoding.Decode | bytes_to_data.go:25-143 | A scalar destination succeeds if and only if the buffer holds its width and it can be set, and then it consumes exactly its width. A bare string or unsupported kind is refused, naming the kind, with the value unchanged. |
| Decoding.DecodeScalar | bytes_to_data.go:27-65 | Success holds if and only if the buffer holds the kind's width and the destination can be set. It then consumes exactly that width and stores a value of the kind and width. A short buffer fails on the slice before the write is attempted. |
| Decoding.DecodeInterface | bytes_to_data.go:130-138 | The result is still an interface holding a value of the same concrete type. An empty interface panics with `NilInterface`. A concrete scalar always fails, because it cannot be set. |
| Decoding.DecodeFields | bytes_to_data.go:66-119 | The struct loop from field i at a running offset. Its properties are the lemmas `ShapeLemmas.FieldsKeepShape`, `FieldRules.FieldsFailureStops`, `Consumption.FieldsConsumedIsWireSize` and `Bounds.FieldsReadOnlyConsumed`, and `Decoder.UpdateFields` is proved equal to it. |
| Decoding.DecodeField | bytes_to_data.go:69-118 | Unexported, ignored and hook fields are never written by the decoder. An unexported field consumes its `typeSize`, and an ignored one consumes 0 bytes. |
| Decoding.DecodeElems | bytes_to_data.go:120-129 | The array/slice loop from element i at a running offset. Its properties are the lemmas `ShapeLemmas.ElemsKeepShape`, `FieldRules.ElemsFailureStops`, `Consumption.ElemsConsumedIsWireSize` and `Bounds.ElemsReadOnlyConsumed`, and `Decoder.UpdateElems` is proved equal to it. |
| Decoding.DecodeHookField | bytes_to_data.go:82-101 | The field is never written. A tag without a comma fails with `FnTagNeedsTwoNames`. Success needs two names, an addressable struct and a method under the second name. |
| Decoding.DecodeStringField | bytes_to_data.go:103-110 | It fails with `MissingLength` exactly when `bytes_length` does not parse. On success the field can be set, the window lies inside the buffer, and the field holds `bytesToStr` of exactly the consumed window. A failure leaves the field unchanged. |
| Decoder.UpdateValueByType | bytes_to_data.go:25-143 | The recursive procedure returns exactly the value and outcome `Decoding.Decode` specifies, for every kind. |
| Decoder.UpdateFields | bytes_to_data.go:66-119 | The struct loop returns exactly `DecodeFields` from field 0 at offset 0. A loop invariant ties the running offset and the fields written so far to the specification. |
| Decoder.UpdateElems | bytes_to_data.go:120-129 | The array/slice loop returns exactly `DecodeElems` from element 0 at offset 0. A loop invariant ties the state to it. |
| Decoder.UpdateField | bytes_to_data.go:69-118 | One struct field, with the rules applied in the source's order, returns exactly `DecodeField`. |
| Hooks.CheckSignature | bytes_to_data.go:145-166 | The checks pass if and only if the method has the signature `func (*S) ([]byte) (int, error)`. They run in the source's order, and each defect gives its own error once the earlier checks pass: a wrong parameter count, then a value receiver (`panic(123)`), then a non-`[]byte` argument, then a wrong result count, then a first result that is not an int, then a second result that is not `error`. |
| Hooks.DecodeViaHook | bytes_to_data.go:145-173 | Success holds if and only if the signature is accepted and the hook returns no error. A hook's error comes back unchanged. The count is the hook's `int` result, and 0 when that result is of a named int type that fails the `.(int)` assertion. |
| Scalars.DecodeSignedInt | bytes_to_data.go:27-41 | int8/16/32/64 consume exactly 1/2/4/8 bytes. The stored value is the two's-complement number whose bytes, written back in the same order, are exactly the bytes read. A shorter buffer fails, and so does an unsettable destination. |
| Scalars.DecodeUnsignedInt | bytes_to_data.go:42-55 | uint8/16/32/64 consume exactly 1/2/4/8 bytes and store the word itself, zero-extended. Written back, it gives the bytes read. This is the corrected uint32 behaviour; see Findings. |
| Scalars.DecodeFloat | bytes_to_data.go:56-65 | float32/64 consume exactly 4/8 bytes and store the 32/64-bit word assembled from them. Written back, it gives the bytes read. |
| Scalars.Int16ByteOrder | bytes_to_data.go:30-33 | For int16, [0x01,0x00] reads as 1 little-endian and as 256 big-endian, and [0xFF,0xFE] big-endian reads as -2. |
| Scalars.Int32FromTwoBytesFails | bytes_to_data.go:34-37 | An int32 read from a 2-byte buffer fails on the slice expression instead of reading past the buffer. |
| AsWritten.StoredUint | bytes_to_data.go:42-55 | The number the source stores for each unsigned width, including the `uint64(int16(val))` round trip, stays within the field's width. |
| AsWritten.StoredUintKeepsWord | bytes_to_data.go:42-48 | For uint8, uint16 and uint64, the source as written stores the word itself, because `SetUint` truncation undoes the uint16 sign extension. |
| AsWritten.StoredUint32Differs | bytes_to_data.go:49-52 | For uint32, the source as written stores 0xFFFF8000 for the word 0x8000 and 0 for 0x10000. The corrected decoder reads [0,0,0x80,0] big-endian as 0x8000. |
| FieldRules.UnexportedFieldIsPadding | bytes_to_data.go:71-73 | An unexported field is skipped whatever its tags say. It is not written and it advances the offset by `typeSize` of its type. |
| FieldRules.IgnoreTagRule | bytes_to_data.go:75-81 | A `bytes_ignore` tag in ParseBool's true spellings skips the field with 0 bytes. Any other tag, false or unparseable, decodes the field exactly as if the tag were absent. |
| FieldRules.HookFieldRule | bytes_to_data.go:82-101 | A `bytes_fn` tag without a comma is `FnTagNeedsTwoNames`. When the struct can be written, a missing method is `HookNotFound`. When, in addition, the method exists and the offset lies inside the buffer, the field adds the hook's count or fails with the hook's error. The decoder never writes the field itself. |
| FieldRules.StringFieldRule | bytes_to_data.go:103-110 | A string field fails with `MissingLength` exactly when `bytes_length` is not a base-10 int32. When the length parses, the struct can be written and the window lies inside the buffer, it stores `bytesToStr` of the `length` bytes at the offset and consumes `length`. |
| FieldRules.StringLengthTag | bytes_to_data.go:104-110 | A length written in decimal is read back as that number, so the field takes exactly that many bytes. |
| FieldRules.InterfaceDecodesConcrete | bytes_to_data.go:130-138 | An interface consumes and fails exactly as its concrete value decoded unaddressable does. A concrete scalar therefore cannot be set through it, and an empty interface panics. |
| FieldRules.UnsupportedKinds | bytes_to_data.go:139-140 | A bare string and any kind without a case are refused as unsupported, naming the kind, and nothing is written. |
| FieldRules.FieldsFailureStops | bytes_to_data.go:84-116 | A failing struct loop reaches some field k at offset o, every field before k decoding successfully on the way (`FieldsReach`). Field k fails at o, its error is the struct's error, it holds what its decode left, and the fields after k keep their old values. |
| FieldRules.FieldsStopHere | bytes_to_data.go:113-116 | A field that fails makes the struct fail with its error. The fields before it keep their new values, it holds what its decode left, and later fields are untouched. |
| FieldRules.ElemsFailureStops | bytes_to_data.go:123-129 | A failing array/slice loop reaches some element k at offset o, every element before k decoding successfully inside the buffer (`ElemsReach`). Element k fails at o, on its own error or on an offset outside the buffer, that failure is the loop's error, and the elements after k keep their old values. |
| FieldRules.ElemsStopHere | bytes_to_data.go:124-127 | An element that fails, or an offset outside the buffer, stops the loop there with that failure as the loop's error. Earlier elements keep their new values and later elements are untouched. |
| DecodeExamples.IgnoredFieldTakesNoBytes | bytes_to_data.go:75-81 | struct {A int8 `bytes_ignore:"true"`; B int8} read from [5] sets B to 5, leaves A, and consumes 1 byte. |
| DecodeExamples.UnexportedFieldSkipsItsSize | bytes_to_data.go:71-73 | An unexported int16 before a uint8 B skips 2 bytes unread. B reads the third byte, and 3 bytes are consumed. |
| Consumption.ConsumedIsWireSize | bytes_to_data.go:25-143 | A successful decode of a hook-free destination consumes exactly `WireSize`. That is the sum, in declaration order, of scalar widths, `typeSize` of unexported fields, 0 for ignored fields and the declared string lengths, over nested structs, arrays, slices and interfaces. |
| Consumption.FieldConsumedIsWireSize | bytes_to_data.go:69-118 | A hook-free field that decodes consumes exactly its `FieldWireSize`. |
| Consumption.FieldsConsumedIsWireSize | bytes_to_data.go:66-142 | A successful struct loop ends at its start offset plus the fields' wire sizes, so it never ends before its start. |
| Consumption.ElemsConsumedIsWireSize | bytes_to_data.go:120-129 | A successful array/slice loop ends at its start offset plus the elements' wire sizes. |
| Consumption.UniformElemsWireSize | bytes_to_data.go:120-129 | Elements that each occupy w bytes occupy (count × w) bytes together. |
| Consumption.ScalarArrayWireSize | bytes_to_data.go:120-129 | An array of n scalars of width w occupies n × w bytes. |
| Bounds.ReadsOnlyConsumed | bytes_to_data.go:25-143 | A hook-free decode gives the same value and outcome from any buffer that starts with the bytes it consumed: it reads nothing beyond them. |
| Bounds.FieldReadsOnlyConsumed | bytes_to_data.go:69-118 | The same for one field, within the struct's consumed prefix. |
| Bounds.FieldsReadOnlyConsumed | bytes_to_data.go:66-119 | The same for the struct loop. |
| Bounds.ElemsReadOnlyConsumed | bytes_to_data.go:120-129 | The same for the array/slice loop. |
| Bounds.NextElemReadsOnlyConsumed | bytes_to_data.go:124 | The next element of a successful loop lies within the consumed prefix and decodes the same from both buffers. |
| Bounds.ElemReadsOnlyConsumed | bytes_to_data.go:124 | One element, read at the running offset, decodes the same from buffers that agree up to the limit. |
| Bounds.ConsumedWithinBuffer | bytes_to_data.go:25-143 | Without padding fields, a hook-free decode that succeeds consumes at most the buffer's length. |
| Bounds.FieldsWithinBuffer | bytes_to_data.go:66-119 | The same for the struct loop from an offset inside the buffer. |
| Bounds.ElemsWithinBuffer | bytes_to_data.go:120-129 | The same for the array/slice loop. |
| Bounds.ShortBufferFails | bytes_to_data.go:25-143 | A hook-free layout without padding whose wire size exceeds the buffer always fails. It never succeeds with a short read. |
| ShapeLemmas.DecodeKeepsShape | bytes_to_data.go:25-143 | Whatever the outcome, the decoded value still has the destination's type. `Set*` only ever stores values of the field's kind and width. |
| ShapeLemmas.FieldKeepsShape | bytes_to_data.go:69-118 | One field keeps its type. |
| ShapeLemmas.FieldsKeepShape | bytes_to_data.go:66-119 | The struct loop yields a struct with the same fields, each of its type. Fields already done are kept as they were. |
| ShapeLemmas.ElemsKeepShape | bytes_to_data.go:120-129 | The array/slice loop keeps the element count and every element's type. |
| ShapeLemmas.ElemsStopShape | bytes_to_data.go:124-127 | A loop that stops at an element still keeps the count and the types. |
| ShapeLemmas.SkippedFieldUntouched | bytes_to_data.go:71-81 | An unexported field or one with `bytes_ignore:"true"` keeps its old value after the struct is decoded, whatever the outcome. |
| ShapeLemmas.FieldsSkipUntouched | bytes_to_data.go:68-119 | The same for the struct loop from any field on. |
| Tags.SplitComma | bytes_to_data.go:84 | Splitting gives at least one part, and a tag without a comma is one part, the tag itself. |
| Tags.ParseBool | bytes_to_data.go:77 | True exactly for "1", "t", "T", "TRUE", "true" and "True", false exactly for "0", "f", "F", "FALSE", "false" and "False", an error for anything else. |
| Tags.ParseInt32 | bytes_to_data.go:105 | A result exists if and only if, after one optional leading sign, the rest is a non-empty run of decimal digits whose value is at most 2147483647, or at most 2147483648 after a minus sign. The result is that value, negated after a minus sign. Anything else is an error. |
| Tags.ParseInt32Examples | bytes_to_data.go:105 | "4x" is an error, "+7" is 7, and "-2147483649" is an error. |
| Tags.SplitCommaJoin | bytes_to_data.go:84 | Joining the comma-split parts with commas gives back the tag, and no part contains a comma. |
| Tags.SplitCommaCount | bytes_to_data.go:84 | Splitting gives one more part than there are commas. |
| Tags.TwoNamesIffComma | bytes_to_data.go:84-87 | A `bytes_fn` tag yields two or more names if and only if it contains a comma. |
| Tags.ParseFormatBool | bytes_to_data.go:77 | ParseBool reads back what FormatBool prints. |
| Tags.IgnoreRequestedSpellings | bytes_to_data.go:75-81 | A field is ignored if and only if its tag is one of "1", "t", "T", "TRUE", "true", "True". |
| Tags.DigitsValueOfNatDigits | bytes_to_data.go:105 | The decimal digits of n denote n. |
| Tags.ParseFormatInt32 | bytes_to_data.go:105 | ParseInt(s, 10, 32) reads back every int32 printed in decimal. |
| Words.ToSigned | bytes_to_data.go:32-36 | The `int16(val)`/`int32(val)` conversion gives the signed number in range whose n-byte two's-complement pattern is the word. |
| Words.BigEndianRoundTrip | bytes_to_data.go:31 | Writing a word big-endian and reading it back gives the word. |
| Words.BigEndianBytesOfWord | bytes_to_data.go:31 | Reading bytes big-endian and writing the word back gives the bytes. |
| Words.LittleEndianIsReversedBigEndian | bytes_to_data.go:31 | The little-endian word of a byte string is the big-endian word of its reversal. |
| Words.WordOfEncodeWord | bytes_to_data.go:31-39 | For either byte order, decoding the encoding of a word gives the word. |
| Words.EncodeWordOfWord | bytes_to_data.go:31-39 | For either byte order, encoding the decoded word of n bytes gives the bytes. |

## Left out

- Reflection is not modelled. `reflect.Type`/`Value`, `MethodByName` and `method.Call` are replaced by the `Type`/`Value` datatypes and by `Env.methodOf`.
- The hook is a function from the bytes to a count and an optional error. Its effect on the struct it is bound to is not modelled, because that code is not part of this model.
- `typeSize`, `bytesToStr` and `errorInterface` are defined outside the file and are not part of this model. The first two are abstract parameters in `Env`. `errorInterface` is reduced to the `ErrorParam` result shape.
- Floats are kept as raw 32/64-bit words. `math.Float32frombits` and the float64 widening are IEEE-754 reinterpretations that do not affect widths or offsets.
- Scalars.DecodeFloat: states that a float32 field stores exactly the bits read. In Go the value goes through `float64` and back in `SetFloat`, and those conversions may quiet a signalling NaN, so the stored bits can differ for those inputs.
- Slices are modelled as values. Two slices that share a backing array (for example two fields both set to `buf[0:1]`) are decoded separately in the model, while in Go the later write is seen through both.
- The hook receives `bytes[offset:]`, which shares the caller's buffer. A hook that writes into it changes what later fields read. The model's buffer is an immutable sequence, so later fields always read the original bytes.
- `Env.methodOf` is unconstrained. It may return a method for the empty name (a `bytes_fn` tag such as `"enc,"`), which Go's `MethodByName` never finds. It may also return a method with a value receiver, which a lookup on the pointer type (line 91) never yields. No property proved here depends on either case.
- `Env.methodOf` looks hooks up by struct name. Go looks them up on the pointer type (line 91), so two distinct types with the same name, such as two anonymous structs, would share their methods in the model.
- A Go panic propagates to `ConvertBytesToData`'s caller. The model returns it as the error `Panicked(reason)` instead.
- A slice expression in Go may reach into a slice's spare capacity. The model takes a buffer's capacity to equal its length.
- Offsets are unbounded integers. Overflow of Go's `int` after billions of bytes is not modelled.
- `fmt.Println` at line 150 is not modelled. Neither is the exact text of the error messages; only the kind of error and the names it carries are kept.
- `HookNotFound`: the source formats `ptrType.Name()`, which is empty for a pointer type. The model records the struct's name.
- `strconv.ParseBool` and `strconv.ParseInt(s, 10, 32)` are reduced to their accepted spellings. The latter is an optional sign and decimal digits within the int32 range. Their error values are collapsed to None.
- A failed decode returns offset 0 in the source. The model's failure outcome carries no count, because every caller discards it.
- The `bytes_fn` encode-hook name (the first name) is not used by this decoder, so it is not modelled.

## Findings

| source | as written | input that shows it | evidently intended | confidence | as-written member | corrected member |
|---|---|---|---|---|---|---|
| bytes_to_data.go:49-52 | a uint32 field stores `uint64(int16(val))`, which keeps only the low 16 bits of the word and sign-extends them | bytes [0x00,0x00,0x80,0x00] big-endian: the word 0x8000 is stored as 0xFFFF8000; the word 0x00010000 is stored as 0 | store the 32-bit word itself (`uint64(val)`), as uint8 and uint64 do | high; not executed | AsWritten.StoredUint32Differs | Scalars.DecodeUnsignedInt |
