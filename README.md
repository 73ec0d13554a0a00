# XBF core in Dafny

A model of the core of `xbf_rs`, the Rust implementation of XBF. XBF is a binary format in which a
value is written without framing and read back with its *metadata* (its shape) in hand.
Three parts of the library are modelled:

- **Primitive values** (`XbfPrimitive`): sixteen scalar kinds. Each kind has a byte-exact
  encoding:
  - booleans are one byte;
  - integers of 1 to 16 bytes are little-endian, and signed ones are two's complement;
  - `U256`/`I256` are four little-endian `u64` limbs;
  - floats are written as their bit patterns;
  - strings are a 16-bit little-endian byte count followed by the bytes.
- **Struct metadata** (`XbfStructMetadata`): a named, ordered list of named field shapes. It is
  written as:
  1. the struct discriminant;
  2. the name;
  3. a 16-bit field count;
  4. each field's name and then its shape, recursively. A vector shape is the vector
     discriminant followed by its element shape. A struct shape is its full encoding.

  Reading the body assumes the discriminant has already been consumed.
- **Struct values** (`XbfStruct`):
  - a checked constructor `new` that compares each value's shape with its field's shape
    pairwise;
  - an unchecked constructor;
  - serialisation as the field values back to back;
  - deserialisation that reads one value per declared field.

Layout of the model:

| file | module | what it holds |
|---|---|---|
| `wire.dfy` | `Wire` | The byte codec the format relies on: little-endian integers, two's complement, 16-bit length-prefixed byte strings, and their round trips. |
| `stream.dfy` | `Stream` | The `Write`/`Read` sinks and sources as a `Writer` that appends and a `Reader` that consumes from the front. |
| `primitive.dfy` | `Primitives` | The primitive kinds and values. Specification functions `EncodePrimitive`/`DecodePrimitive`, and the imperative `SerializePrimitive`/`DeserializePrimitive` proved equal to them. The 256-bit read fills a four-limb array in place. |
| `metadata.dfy` | `Metadata` | Shapes, the discriminants, and the metadata encoder and decoder as functions. |
| `metadata_io.dfy` | `MetadataIo` | The metadata serialiser and deserialiser over the streams. |
| `values.dfy` | `Values` | Values, the constructors, and the value encoder and decoder as functions. |
| `values_io.dfy` | `ValuesIo` | The value serialiser and deserialiser over the streams. |
| `*_proofs.dfy`, `values_examples.dfy` | | Round trips in both directions, layouts, and the library's own test and documentation examples. |

Every decoder returns the decoded value together with the unread rest of its input, or an error.
An imperative reader method is proved to leave exactly that rest in its `Reader` (`WithRest`).
An imperative writer method is proved to append exactly the encoding to its `Writer`.

Integers are unbounded in Dafny. The Rust widths are subset types `u8` … `u128` and `i8` … `i128`,
bounded by powers of 256. Byte strings are sequences of `u8`.

## Model

| member | source | states |
|---|---|---|
| Wire.DecodeUint | xbf_rs/src/xbf_primitive/primitive.rs:61-64 | An n-byte little-endian read succeeds exactly when n bytes are left. The value is below 256^n, the rest is the input after n bytes, and a short input is an end-of-input error. |
| Wire.UintRoundTrip | xbf_rs/src/xbf_primitive/primitive.rs:33-37 | Reading n bytes back from the little-endian encoding of any x below 256^n gives x and leaves what follows untouched. |
| Wire.DecodedUintEncodes | xbf_rs/src/xbf_primitive/primitive.rs:61-64 | The reverse direction: a successful read took exactly the little-endian bytes of the value it returns. |
| Wire.TwosComplementRoundTrip | xbf_rs/src/xbf_primitive/primitive.rs:41-45 | A signed value in range is recovered from its n-byte two's complement pattern. |
| Wire.EncodeString | xbf_rs/src/xbf_primitive/primitive.rs:51 | A string is 2 bytes longer than its text. When the length fits 16 bits, the first two bytes are the length in little-endian order and the rest is the text. |
| Wire.DecodeString | xbf_rs/src/xbf_primitive/primitive.rs:91 | Reading a string succeeds exactly when two length bytes and that many text bytes are present. Otherwise it fails with end of input. |
| Wire.StringRoundTrip | xbf_rs/src/xbf_primitive/primitive.rs:241-265 | Any text shorter than 65536 bytes reads back from its encoding, and the bytes after it stay unread. |
| Wire.DecodedStringEncodes | xbf_rs/src/xbf_primitive/primitive.rs:91 | A successful string read consumed exactly the encoding of the text it returns. |
| Stream.Writer.WriteUint | xbf_rs/src/xbf_primitive/primitive.rs:33-37 | Appends exactly the n-byte little-endian encoding to the writer. |
| Stream.Writer.WriteString | xbf_rs/src/xbf_primitive/primitive.rs:51 | Appends exactly the string's length-prefixed encoding. |
| Stream.Reader.ReadUint | xbf_rs/src/xbf_primitive/primitive.rs:61-64 | Returns what `DecodeUint` returns and leaves its rest in the reader. |
| Stream.Reader.ReadString | xbf_rs/src/xbf_primitive/primitive.rs:91 | Returns what `DecodeString` returns and leaves its rest in the reader. |
| Primitives.KindOf | xbf_rs/src/xbf_primitive/primitive.rs:318-336 | A value's kind is the metadata variant of the same name. In particular it is `String`, `U256` or `I256` exactly for the values of those variants. |
| Primitives.Discriminant | xbf_rs/src/xbf_struct/struct_metadata.rs:76 | A kind's discriminant byte is its position in the kind list, so distinct kinds have distinct bytes below the number of kinds. |
| Primitives.KindFromDiscriminant | xbf_rs/src/xbf_struct/struct_metadata.rs:140 | A byte names a kind exactly when it is below the number of kinds, and then it names the kind whose discriminant it is. Any other byte is an unknown-discriminant error carrying the byte. |
| Primitives.FixedWidth | xbf_rs/src/xbf_primitive/primitive.rs:60-90 | Every kind but the string has a fixed width between 1 and 32 bytes. |
| Primitives.EncodeU64s | xbf_rs/src/xbf_primitive/primitive.rs:38-40 | Limbs take 8 bytes each. |
| Primitives.DecodeU64s | xbf_rs/src/xbf_primitive/primitive.rs:68-74 | Reading n limbs succeeds exactly when 8n bytes are left and consumes exactly 8n bytes. A short read at any limb fails the whole read with end of input. |
| Primitives.DecodedU64sEncodes | xbf_rs/src/xbf_primitive/primitive.rs:82-88 | A successful limb read consumed exactly the encoding of the limbs it returns. |
| Primitives.Pattern | xbf_rs/src/xbf_primitive/primitive.rs:31-50 | The number whose little-endian bytes are written for a value of at most 16 bytes always fits in its kind's width, so the fixed-width write never loses bits. |
| Primitives.EncodePrimitive | xbf_rs/src/xbf_primitive/primitive.rs:29-53 | A string's encoding is its text plus 2 bytes. Every other value's encoding is exactly its kind's width. |
| Primitives.UnsignedFromBits | xbf_rs/src/xbf_primitive/primitive.rs:61-67 | For an unsigned or float kind, the value read from a pattern has that kind and writes back that same pattern. |
| Primitives.SignedFromBits | xbf_rs/src/xbf_primitive/primitive.rs:75-81 | For a signed kind, the value read from a two's complement pattern has that kind and writes back that same pattern. |
| Primitives.TwosComplementOfFrom | xbf_rs/src/xbf_primitive/primitive.rs:75-81 | Interpreting an n-byte pattern as two's complement and writing it again gives the same pattern. |
| Primitives.FromBits | xbf_rs/src/xbf_primitive/primitive.rs:60-90 | The value read from a pattern of a fixed-width kind has that kind and that kind's width. For every kind but the boolean, it writes back the same pattern. |
| Primitives.DecodePrimitive | xbf_rs/src/xbf_primitive/primitive.rs:55-93 | Reading a fixed-width kind succeeds exactly when its width is available. Reading a string succeeds exactly when its prefix and text are available. A successful read returns a value of the requested kind that can be written again and consumes at least one byte. The only failure is end of input. |
| Primitives.DecodedPrimitiveEncodes | xbf_rs/src/xbf_primitive/primitive.rs:55-93 | A successful read consumed exactly as many bytes as its value encodes to. For every kind but the boolean, those bytes are exactly the value's encoding. |
| Primitives.From | xbf_rs/src/xbf_primitive/primitive.rs:98-121 | Each native converts to the variant named after its type (`KindOf` is `NativeKind`), holding the native's own value: the same text for a string, the same integer (booleans as 0 or 1, floats as bit patterns) otherwise. No native gives a 256-bit value. |
| PrimitiveProofs.FromUnique | xbf_rs/src/xbf_primitive/primitive.rs:290-307 | Any primitive of the native's kind holding the native's value is the converted value, so the conversion's contract determines it, as the `into()` tests check variant and value together. |
| Primitives.SerializePrimitive | xbf_rs/src/xbf_primitive/primitive.rs:29-53 | Appends exactly `EncodePrimitive(p)` to the writer. |
| Primitives.WriteLimbs | xbf_rs/src/xbf_primitive/primitive.rs:38-40 | Appends the four limbs in array order, 8 little-endian bytes each. |
| Primitives.DeserializePrimitive | xbf_rs/src/xbf_primitive/primitive.rs:55-93 | Returns what `DecodePrimitive` returns and leaves its rest in the reader. |
| Primitives.ReadLimbs | xbf_rs/src/xbf_primitive/primitive.rs:68-74 | Fills a four-slot array in place, one 64-bit read per slot, and returns what `DecodeU64s(4, ·)` returns. A short read aborts the whole read. |
| PrimitiveProofs.U64sRoundTrip | xbf_rs/src/xbf_primitive/primitive.rs:180-200 | Limbs read back from their encoding in the same positions, and what follows is left unread. |
| PrimitiveProofs.PrimitiveRoundTrip | xbf_rs/src/xbf_primitive/primitive.rs:129-146 | Every writable value read back with its own kind is the same value, and the bytes after it stay unread. Two values written one after the other therefore read back in turn. |
| PrimitiveProofs.UnsignedPatternRoundTrip | xbf_rs/src/xbf_primitive/primitive.rs:171-177 | A boolean, unsigned integer or float is recovered from its own written pattern. |
| PrimitiveProofs.SignedPatternRoundTrip | xbf_rs/src/xbf_primitive/primitive.rs:203-209 | A signed integer of every width is recovered from its own two's complement pattern. |
| PrimitiveProofs.LimbLayout | xbf_rs/src/xbf_primitive/primitive.rs:187-191 | Limb j occupies bytes 8j to 8j+8 of the encoding, in little-endian order. |
| PrimitiveProofs.WideLayout | xbf_rs/src/xbf_primitive/primitive.rs:212-232 | `U256` and `I256` are both 32 bytes with limb j at bytes 8j to 8j+8, and they encode identically. |
| PrimitiveProofs.BoolDecodeAnyByte | xbf_rs/src/xbf_primitive/primitive.rs:60 | Reading a boolean consumes one byte and accepts every byte: zero is false and anything else is true. |
| PrimitiveProofs.ShortInputFails | xbf_rs/src/xbf_primitive/primitive.rs:55-93 | Input shorter than a fixed-width kind needs is an end-of-input error. |
| PrimitiveProofs.BoolLayout | xbf_rs/src/xbf_primitive/primitive.rs:150-158 | `true` is written as `[1]` and `false` as `[0]`. |
| PrimitiveProofs.U16Example | xbf_rs/src/xbf_primitive/primitive.rs:173 | `U16(420)` is written as `A4 01`. |
| PrimitiveProofs.I32Example | xbf_rs/src/xbf_primitive/primitive.rs:206 | `I32(100000)` is written as `A0 86 01 00`. |
| PrimitiveProofs.I8Example | xbf_rs/src/xbf_primitive/primitive.rs:41 | `I8(-1)` is written as its two's complement byte `FF`. |
| PrimitiveProofs.StringExample | xbf_rs/src/xbf_primitive/primitive.rs:241-252 | The string "hi" is written as `02 00 68 69`: its byte length, then its bytes. |
| PrimitiveProofs.FromInjective | xbf_rs/src/xbf_primitive/primitive.rs:290-307 | Distinct native values convert to distinct primitive values. |
| Metadata.Tag | xbf_rs/src/xbf_struct/struct_metadata.rs:13 | A shape's leading byte identifies its family: below the number of kinds for a primitive, the vector discriminant for a vector, and the struct discriminant for a struct. |
| Metadata.EncodeMetadata | xbf_rs/src/xbf_struct/struct_metadata.rs:201-203 | Every shape's encoding starts with its family's discriminant byte. |
| Metadata.EncodeStructMetadata | xbf_rs/src/xbf_struct/struct_metadata.rs:86-93 | A struct shape's encoding starts with the struct discriminant and has at least the name and count prefixes after it. |
| Metadata.DecodeMetadata | xbf_rs/src/xbf_struct/struct_metadata.rs:140 | Reading a shape always consumes at least one byte, and empty input is an end-of-input error. A primitive discriminant reads as exactly that one byte. A byte above the struct discriminant is an unknown-discriminant error carrying that byte. |
| Metadata.DecodeStructMetadata | xbf_rs/src/xbf_struct/struct_metadata.rs:133-144 | A struct body read consumes at least the name and count prefixes and yields fewer than 65536 fields. |
| Metadata.DecodeFields | xbf_rs/src/xbf_struct/struct_metadata.rs:137-142 | Reading n fields yields exactly n (name, shape) pairs. |
| MetadataIo.SerializeMetadata | xbf_rs/src/xbf_struct/struct_metadata.rs:91 | Appends exactly the shape's encoding to the writer. |
| MetadataIo.SerializeStructMetadata | xbf_rs/src/xbf_struct/struct_metadata.rs:86-93 | Appends the discriminant, the name, the 16-bit count and the fields, which together are exactly `EncodeStructMetadata`. |
| MetadataIo.SerializeFields | xbf_rs/src/xbf_struct/struct_metadata.rs:90-92 | Appends each field's name and shape in declared order. |
| MetadataIo.DeserializeMetadata | xbf_rs/src/xbf_struct/struct_metadata.rs:140 | Returns what `DecodeMetadata` returns and leaves its rest in the reader. |
| MetadataIo.DeserializeStructMetadata | xbf_rs/src/xbf_struct/struct_metadata.rs:133-144 | Reads the name and the count, then pushes that many fields one by one. Returns what `DecodeStructMetadata` returns and aborts on the first failed read. |
| MetadataProofs.DiscriminantsDistinct | xbf_rs/src/xbf_struct/struct_metadata.rs:9-13 | Every primitive discriminant is below the vector discriminant. The struct discriminant is the vector one plus one, and it differs from every primitive discriminant. |
| MetadataProofs.DiscriminantInjective | xbf_rs/src/xbf_struct/struct_metadata.rs:76 | Two kinds with the same discriminant byte are the same kind. |
| MetadataProofs.MetadataRoundTrip | xbf_rs/src/xbf_struct/struct_metadata.rs:162-221 | Every shape whose names and counts fit 16 bits reads back from its encoding, nested vectors and structs included, and what follows is left unread. |
| MetadataProofs.StructBodyRoundTrip | xbf_rs/src/xbf_struct/struct_metadata.rs:133-144 | With its discriminant already consumed, a struct body reads back as the same struct. |
| MetadataProofs.FieldsRoundTrip | xbf_rs/src/xbf_struct/struct_metadata.rs:137-142 | The encoded fields from any position read back as exactly those fields, in order. |
| MetadataProofs.FieldsFromUnfold | xbf_rs/src/xbf_struct/struct_metadata.rs:90-92 | Field i is written as its name and then its shape, before the later fields. |
| MetadataProofs.DecodedMetadataEncodes | xbf_rs/src/xbf_struct/struct_metadata.rs:140 | The reverse round trip: whatever reads as a shape is writable, and the bytes consumed are exactly its encoding. |
| MetadataProofs.DecodedVecEncodes | xbf_rs/src/xbf_struct/struct_metadata.rs:201-203 | Whatever reads as a vector shape has a writable element shape, and the bytes consumed are exactly the vector discriminant and the element shape. |
| MetadataProofs.DecodedStructEncodes | xbf_rs/src/xbf_struct/struct_metadata.rs:133-144 | Whatever reads as a struct body is a writable struct, and the bytes consumed are exactly its body. |
| MetadataProofs.DecodedFieldsEncode | xbf_rs/src/xbf_struct/struct_metadata.rs:137-142 | Decoded fields have names and shapes that fit their prefixes, and the bytes consumed are exactly their encoding. |
| MetadataProofs.FieldFailureAborts | xbf_rs/src/xbf_struct/struct_metadata.rs:139-140 | A failed read of a field name or field shape fails the whole read with that error, and no partial struct is returned. |
| MetadataProofs.StructLayoutExample | xbf_rs/src/xbf_struct/struct_metadata.rs:55-84 | `test_struct { a: i32, b: u64 }` is written as discriminant, `0B 00`, the name, `02 00`, then each field's length-prefixed name and kind byte. |
| MetadataProofs.InnerLayout | xbf_rs/src/xbf_struct/struct_metadata.rs:206-215 | The nested struct `inner { d: i32 }` is written with its own discriminant, name, count 1 and field. |
| MetadataProofs.NestedLayoutExample | xbf_rs/src/xbf_struct/struct_metadata.rs:187-217 | `test { a: i32, b: vec<i32>, c: inner }` is written with the vector field as the vector discriminant followed by the `i32` kind byte, and with the struct field as the full encoding of `inner`. |
| MetadataProofs.NestedRoundTripExample | xbf_rs/src/xbf_struct/struct_metadata.rs:219-221 | That nested example reads back through the shape decoder as `Struct` of the same metadata, with nothing left over. |
| Values.MetadataOf | xbf_rs/src/xbf_struct/struct_type.rs:64 | A value's shape is of the same family as the value. |
| Values.StructMetadataFrom | xbf_rs/src/xbf_struct/struct_metadata.rs:149-153 | The shape derived from a struct value is the struct shape stored in it. |
| Values.GetMetadata | xbf_rs/src/xbf_struct/struct_type.rs:214-216 | `get_metadata` returns the same shape as the `From<&XbfStruct>` conversion. |
| Values.NewUnchecked | xbf_rs/src/xbf_struct/struct_type.rs:104-106 | Always succeeds and stores the shape and the values unchanged. |
| Values.MismatchAt | xbf_rs/src/xbf_struct/struct_type.rs:224-232 | The mismatch error names the field and carries its declared shape and the supplied value's shape. |
| Values.New | xbf_rs/src/xbf_struct/struct_type.rs:59-74 | Succeeds exactly when every position below the shorter of fields and values matches, and then builds the unchecked struct. Otherwise it fails at the first mismatching position with that field's error. |
| Values.NewExact | xbf_rs/src/xbf_struct/struct_type.rs:59-74 | The length-checking constructor succeeds exactly when there is one value per field and every pair matches. A success built from well-formed values is a well-formed struct. A wrong count is reported with both counts. |
| Values.DecodeType | xbf_rs/src/xbf_struct/struct_type.rs:179 | A value read with shape m has shape m and does not lengthen the input. |
| Values.DecodeStructValue | xbf_rs/src/xbf_struct/struct_type.rs:173-182 | A struct read carries exactly the shape it was read with and one value per declared field. |
| Values.DecodeFieldValues | xbf_rs/src/xbf_struct/struct_type.rs:177-180 | Reading from field i on yields one value per remaining field. |
| Values.EncodeType | xbf_rs/src/xbf_struct/struct_type.rs:141 | `serialize_base_type`: a primitive or a vector always writes at least one byte, and a vector at least its 8-byte count. Only a struct can write nothing. |
| Values.EncodeStructValue | xbf_rs/src/xbf_struct/struct_type.rs:138-142 | `serialize_struct_type`: a struct with no fields writes nothing, since neither a count nor the shape is written. `StructValueLayout` gives the full layout. |
| Values.EncodeVecValue | xbf_rs/src/xbf_struct/struct_type.rs:396 | The vector value encoding called at this line always starts with its 8-byte element count. This count is the assumption stated under "Left out". |
| Values.DecodeVecValue | xbf_rs/src/xbf_struct/struct_type.rs:401-403 | A vector value read with an element shape carries that shape and does not lengthen the input. The round trips are `VecRoundTrip` and `DecodedVecConforms`. |
| Values.DecodeElements | xbf_rs/src/xbf_struct/struct_type.rs:401-403 | Reading elements i to n - 1 yields exactly n - i values and aborts on the first failed read. |
| ValuesIo.SerializeType | xbf_rs/src/xbf_struct/struct_type.rs:141 | Appends exactly a value's encoding. |
| ValuesIo.SerializeStruct | xbf_rs/src/xbf_struct/struct_type.rs:138-142 | Appends each field value's encoding in order, with no names, count or discriminants. |
| ValuesIo.SerializeVec | xbf_rs/src/xbf_struct/struct_type.rs:396 | Appends exactly the vector value's encoding: the count, then each element. |
| ValuesIo.SerializeElements | xbf_rs/src/xbf_struct/struct_type.rs:396 | The loop appends each element's encoding in order, exactly `EncodeElementsFrom(xv, 0)`, which `ElementsLayout` equates with the elements back to back. |
| ValuesIo.DeserializeType | xbf_rs/src/xbf_struct/struct_type.rs:179 | Returns what `DecodeType` returns and leaves its rest in the reader. |
| ValuesIo.DeserializeStruct | xbf_rs/src/xbf_struct/struct_type.rs:173-182 | Pushes one value per declared field, read with that field's shape. Returns what `DecodeStructValue` returns and aborts on the first failed read. |
| ValuesIo.DeserializeVec | xbf_rs/src/xbf_struct/struct_type.rs:401-403 | Returns what `DecodeVecValue` returns and leaves its rest in the reader. |
| ValuesIo.DeserializeElements | xbf_rs/src/xbf_struct/struct_type.rs:401-403 | The push loop over the element count returns what `DecodeElements` returns and leaves its rest in the reader. |
| ValuesProofs.ValueRoundTrip | xbf_rs/src/xbf_struct/struct_type.rs:354-406 | Every well-formed value, nested vectors and structs included, reads back with its own shape, and what follows is left unread. |
| ValuesProofs.StructRoundTrip | xbf_rs/src/xbf_struct/struct_type.rs:391-405 | A well-formed struct reads back from its field values' bytes with its own shape. |
| ValuesProofs.FieldValuesRoundTrip | xbf_rs/src/xbf_struct/struct_type.rs:177-180 | The field values from any position read back as exactly those values. |
| ValuesProofs.VecRoundTrip | xbf_rs/src/xbf_struct/struct_type.rs:375-378 | A well-formed vector value reads back with its element shape, and what follows is left unread. |
| ValuesProofs.DecodedConforms | xbf_rs/src/xbf_struct/struct_type.rs:173-182 | Whatever reads with a shape is well formed, and the read consumed exactly as many bytes as it encodes to. |
| ValuesProofs.DecodedStructConforms | xbf_rs/src/xbf_struct/struct_type.rs:173-182 | A decoded struct is well formed, and it consumed exactly its encoding's length. |
| ValuesProofs.DecodedFieldValuesConform | xbf_rs/src/xbf_struct/struct_type.rs:177-180 | Each decoded field value has its field's shape and is well formed, and the read consumed exactly their encoding's length. |
| ValuesProofs.DecodedVecConforms | xbf_rs/src/xbf_struct/struct_type.rs:401-405 | A decoded vector is well formed, with every element of the element shape, and the read consumed exactly its encoding's length. |
| ValuesProofs.DecodeReencode | xbf_rs/src/xbf_struct/struct_type.rs:173-182 | A decoded value, re-encoded, reads back as itself. Decoding is canonical even where the input was not, for example a boolean byte other than 0 or 1. |
| ValuesProofs.CheckedRoundTrip | xbf_rs/src/xbf_struct/struct_type.rs:354-406 | A struct built from well-formed values that match their fields one for one reads back from its bytes with the shape `get_metadata` returns. |
| ValuesProofs.DecodedMetadataIsInput | xbf_rs/src/xbf_struct/struct_type.rs:173-182 | A decoded value's own shape is the shape it was read with, so decoding and re-deriving the shape are inverse. |
| ValuesProofs.EncodeListAppend | xbf_rs/src/xbf_struct/struct_type.rs:138-142 | Writing two lists of values back to back is writing their concatenation. |
| ValuesProofs.FieldValuesLayout | xbf_rs/src/xbf_struct/struct_type.rs:139-141 | The field values from position i onwards are written as those fields' encodings back to back. |
| ValuesProofs.ElementsLayout | xbf_rs/src/xbf_struct/struct_type.rs:396 | `EncodeElementsFrom` writes the elements from position i onwards back to back. |
| ValuesProofs.StructValueLayout | xbf_rs/src/xbf_struct/struct_type.rs:138-142 | A struct value is its field values back to back, with no count, names or shape. |
| ValuesProofs.VecValueLayout | xbf_rs/src/xbf_struct/struct_type.rs:396 | A vector value is its element count as an 8-byte little-endian number, then its elements back to back. |
| ValuesProofs.StructBytesIgnoreShape | xbf_rs/src/xbf_struct/struct_type.rs:138-142 | The shape is not written: two structs with the same field values have the same bytes. |
| ValuesProofs.DecodedStructShape | xbf_rs/src/xbf_struct/struct_type.rs:181 | A decoded struct carries the given shape, through both `get_metadata` and `From`, and has one value per field. |
| ValuesProofs.FieldValueFailureAborts | xbf_rs/src/xbf_struct/struct_type.rs:179 | A failed read of any field value fails the whole struct with that error. |
| ValuesExamples.NewAcceptsExample | xbf_rs/src/xbf_struct/struct_type.rs:269-277 | `new` accepts `I32(42), U64(69)` for `a: i32, b: u64`. |
| ValuesExamples.NewRejectsFirstExample | xbf_rs/src/xbf_struct/struct_type.rs:303-320 | `new` rejects a string for `a`, naming `a`, the expected `i32` and the actual string. |
| ValuesExamples.NewRejectsSecondExample | xbf_rs/src/xbf_struct/struct_type.rs:51-57 | `new` rejects an `i64` for `b` once `a` has matched. |
| ValuesExamples.NewAcceptsMissingField | xbf_rs/src/xbf_struct/struct_type.rs:63 | `new` accepts one value for two fields, and the struct it builds does not read back from its own bytes. |
| ValuesExamples.MissingFieldFails | xbf_rs/src/xbf_struct/struct_type.rs:173-182 | That struct's bytes are `2A 00 00 00`, and reading them with its shape fails with end of input. |
| ValuesExamples.SecondFieldMissing | xbf_rs/src/xbf_struct/struct_type.rs:177-180 | After `a` is read there is no input left for `b: u64`, so the struct read fails. |
| ValuesExamples.NewExactRejectsMissingField | xbf_rs/src/xbf_struct/struct_type.rs:63 | The length-checking constructor rejects the same values and reports 2 fields against 1 value. |
| ValuesExamples.I32Bytes | xbf_rs/src/xbf_struct/struct_type.rs:135 | `I32(42)` is written as `2A 00 00 00`. |
| ValuesExamples.SingleFieldExample | xbf_rs/src/xbf_struct/struct_type.rs:122-136 | `test_struct { a: 42 }` is written as the four bytes of 42, reads back from them, and returns its own shape from `get_metadata`. |
| ValuesExamples.NestedValueLayout | xbf_rs/src/xbf_struct/struct_type.rs:391-399 | The nested struct's bytes are its `i32`, vector and inner struct encodings back to back. |
| ValuesExamples.NestedValueRoundTrip | xbf_rs/src/xbf_struct/struct_type.rs:401-405 | Those bytes read back with the outer shape as the same struct. |

## Left out

- The vector value codec (`serialize_vec_type`, `deserialize_vec_type`) and `XbfVec` are not part of this model. The struct test at xbf_rs/src/xbf_struct/struct_type.rs:354-406 reads a vector field back from the bytes alone, with no count supplied, so the model takes a vector value to be its element count as a little-endian `u64` followed by the elements. The vector metadata encoding, the vector discriminant followed by the element shape, is fixed by xbf_rs/src/xbf_struct/struct_metadata.rs:201-203.
- The unified dispatch (`serialize_base_type`, `deserialize_base_type`, `serialize_base_metadata`, `deserialize_base_metadata`) is not part of this model. It is modelled as the three-way split on the value or its shape, and on the leading discriminant byte when reading metadata.
- `VEC_METADATA_DISCRIMINANT` is defined outside the modelled files. The model takes it to be the number of primitive kinds, so it directly follows their discriminants. The primitive metadata enum is not part of this model either. Its kinds are taken in the order of `XbfPrimitive` (xbf_rs/src/xbf_primitive/primitive.rs:9-26), with each discriminant equal to its position, as `as u8` gives.
- The `Bytes` kind that one test names (xbf_rs/src/xbf_struct/struct_type.rs:338) has no value variant and no codec arm in xbf_rs/src/xbf_primitive/primitive.rs, so it is not modelled.
- Floats are kept as their IEEE-754 bit patterns. Float arithmetic and NaN's non-reflexive equality are not modelled. The round trips hold on bit patterns.
- Strings are raw byte sequences. UTF-8 validation on read (`read_string`) and the `String` type's invariants are not modelled. `util::read_string`/`write_string` are not part of this model. They are modelled as a 16-bit little-endian byte count followed by the bytes.
- Wire.EncodeString: the length is truncated to 16 bits, as `as u16` does, so a string of 65536 bytes or more is written with a wrong length. The round-trip lemmas require names, texts and field counts below 65536. The same holds for the struct field count at xbf_rs/src/xbf_struct/struct_metadata.rs:89, and for the vector count modulo 2^64.
- `io::Error` and its kinds are reduced to `UnexpectedEof`, plus `UnknownDiscriminant` for a metadata byte that names nothing. Writers never fail: an in-memory `Vec<u8>` sink cannot.
- Where a reader stands after a failed read is not modelled. The reader methods promise only the error, as the functions do.
- The `Display`/`Error` impls and the formatted text of `StructFieldMismatchError` are not modelled. The error is a datatype carrying the field name, the expected shape and the actual shape.
- The upcast traits (`XbfTypeUpcast`, `XbfMetadataUpcast`, `to_base_type`, `into_base_type`) are not modelled. They only wrap a value in its union variant, which is a datatype constructor here.
- `XbfStructMetadata::new` is the datatype constructor `XbfStructMetadata(name, fields)`, so it has no member of its own.
- Primitives.From: equality of a converted float is on bit patterns, not on float values.
- Recursion depth and memory limits are not modelled.

## Findings

| source | as written | input that shows it | evidently intended | confidence | as-written member | corrected member |
|---|---|---|---|---|---|---|
| xbf_rs/src/xbf_struct/struct_type.rs:63 | `new` zips fields with values, so it compares only as many pairs as the shorter side has and accepts too few or too many values | `test_struct { a: i32, b: u64 }` with the single value `I32(42)`: `new` succeeds, and the struct it builds writes 4 bytes that fail to read back with its own shape | refuse a value count that differs from the field count, so that every checked struct reads back from its own bytes | not executed | ValuesExamples.NewAcceptsMissingField | Values.NewExact |
