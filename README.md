# llm-streamliner memory modules in Dafny

llm-streamliner compresses a text context into a `MemoryModule`. The module
holds the compressed bytes and a free-form metadata string, can be written
to JSON and read back, and expands to the original text through a matching
expander. This project models that layer of `src/lib.rs`:

- the error kinds of `StreamlinerError`;
- the `Compressor` and `Expander` traits, as function types returning a `Result`;
- `MemoryModule` as a class with the fields `compressedData` and `metadata`;
- its operations `new`, `expand`, `to_json`, `from_json`, `metadata` and `set_metadata`;
- the identity test codecs `TestCompressor` and `TestExpander`;
- the two tests that go through a module.

The identity codec is modelled concretely. `str::as_bytes` is the UTF-8
encoding of section 3 of RFC 3629. `String::from_utf8` is a decoder that
accepts exactly the well-formed sequences of section 4 of RFC 3629 and
reports the first ill-formed one as a `Utf8Error` with `valid_up_to` and
`error_len`. Its text is rendered as `Utf8Error`'s `Display` writes it. A
Dafny `char` is a Unicode scalar value, so a Dafny `string` holds exactly
what a Rust `String` holds.

`to_json` and `from_json` are modelled at the level of serde's data model.
A document is a tree of JSON values (`Json.Json`), and an object is kept as
its list of members in document order. `Serialize` writes the object that
`#[derive(Serialize)]` produces: `compressed_data` as an array of integers,
then `metadata` as a string. `Deserialize` reads what `#[derive(Deserialize)]`
accepts:

- an object in which each field occurs exactly once with the right shape,
  where members with other keys are skipped;
- or a two-element array of the fields in order.

The format's description speaks of an object with exactly two fields and
leaves the treatment of unknown keys open. The derived deserializer ignores
unknown keys and also accepts the array form, and the model follows that code.

Files: `prelude.dfy` (`u8`, `Option`), `utf8.dfy`, `json.dfy`, `memory.dfy`
(the core of `src/lib.rs`), `test_codecs.dfy` (its test module).

## Model

| member | source | states |
|---|---|---|
| Utf8.EncodeScalar | src/lib.rs:120 | each character becomes one to four bytes; the first is never a continuation byte and the others always are; an ASCII character is its own single byte, and no byte of a longer sequence is in the ASCII range |
| Utf8.DecodeScalar | src/lib.rs:127 | a decoded character consumes one to four bytes of the input; an error names one to three offending bytes that are present, or none when fewer than four bytes remain and the input ends inside a character |
| Utf8.Decode | src/lib.rs:127 | on failure `valid_up_to` lies inside the input and `error_len` bytes fit after it |
| Utf8.DecodeScalarOfEncoding | src/lib.rs:118-128 | decoding the encoding of a character, whatever follows it, yields that character and consumes exactly its bytes |
| Utf8.EncodingOfDecodedScalar | src/lib.rs:127 | the bytes a decoded character consumes are exactly its encoding, so no overlong form, surrogate or value above U+10FFFF is accepted |
| Utf8.EncodeAppend | src/lib.rs:120 | the bytes of a concatenation are the concatenation of the bytes |
| Utf8.DecodeEncode | src/lib.rs:118-129 | `String::from_utf8(s.as_bytes())` gives back `s` for every string |
| Utf8.EncodeDecode | src/lib.rs:125-129 | when `from_utf8` succeeds, the string's bytes are exactly the input |
| Utf8.EncodeInjective | src/lib.rs:120 | two strings with the same bytes are equal |
| Utf8.DecodeValidIff | src/lib.rs:126-128 | `from_utf8` succeeds if and only if the bytes are the UTF-8 encoding of some string |
| Utf8.ValidUpToIsValid | src/lib.rs:127-128 | on failure, the bytes before `valid_up_to` decode without error |
| Utf8.ValidUpToIsUtf8 | src/lib.rs:127-128 | on failure, the bytes before `valid_up_to` are the encoding of some string |
| Utf8.Decimal | src/lib.rs:128 | the numbers in the failure text are written as non-empty digit strings without a leading zero |
| Utf8.DecimalValueOfDecimal | src/lib.rs:128 | the digits written for a number denote that number |
| Json.ItemBytesOfByteItems | src/lib.rs:47-50 | `compressed_data` written as an array of integers reads back as the same bytes |
| Json.ByteItemsOfItemBytes | src/lib.rs:47-50 | the only arrays that read as a byte vector are the ones written for it |
| Memory.Deserialize | src/lib.rs:76-78 | `from_json` fails only with `SerializationError` |
| Memory.DeserializeSerialize | src/lib.rs:71-78 | reading what `to_json` writes gives back both fields unchanged |
| Memory.DeserializeArrayForm | src/lib.rs:47-53 | the two fields as a two-element array read back unchanged as well |
| Memory.VisitMapOkIff | src/lib.rs:47-53 | reading object members succeeds if and only if each field is met exactly once counting those already seen, and every known key holds a value of its field's shape |
| Memory.DeserializeObjectOkIff | src/lib.rs:47-53 | an object reads as a module if and only if `compressed_data` and `metadata` each occur exactly once, as a byte array and a string; missing and duplicate fields are refused |
| Memory.VisitMapFields | src/lib.rs:47-53 | each field read from object members is the one already seen or the value of a member with its key |
| Memory.DeserializeObjectFields | src/lib.rs:47-53 | the fields of a module read from an object are the values of its `compressed_data` and `metadata` members |
| Memory.VisitMapSkips | src/lib.rs:47-53 | a member with an unknown key does not change how the remaining members are read |
| Memory.DeserializeIgnoresUnknownKey | src/lib.rs:47-53 | inserting a member with an unknown key anywhere in an object does not change what `from_json` returns |
| Memory.MemoryModule.New | src/lib.rs:57-63 | fails if and only if the compressor fails, and then with the compressor's own error; otherwise a fresh module holding exactly the compressor's bytes and empty metadata |
| Memory.MemoryModule.ToJson | src/lib.rs:71-73 | never fails, and the document it writes reads back as this module's two fields |
| Memory.MemoryModule.FromJson | src/lib.rs:76-78 | succeeds if and only if the document reads as a module, giving a fresh module with those fields; otherwise `SerializationError` |
| Memory.MemoryModule.SetMetadata | src/lib.rs:81-88 | afterwards `metadata()` returns the new value, `compressed_data` is unchanged and every expander gives the same result as before |
| Memory.CompressAndExpand | src/lib.rs:57-68 | with an expander that inverts the compressor, `new` then `expand` gives back the context, also after a `set_metadata` in between; a failing compressor's error comes back unchanged |
| Memory.PersistAndExpand | src/lib.rs:104-114 | `new`, `set_metadata`, `to_json`, `from_json` and `expand` give back the context and the metadata that was set, for any inverse codec pair |
| TestCodecs.TestCompress | src/lib.rs:118-121 | never fails, and its bytes decode as UTF-8 to the context |
| TestCodecs.TestExpand | src/lib.rs:125-129 | succeeds exactly on byte sequences that are UTF-8, returning the string they encode; otherwise an `ExpansionError` whose cause starts with "UTF-8 conversion failed: " |
| TestCodecs.TestCodecsInvert | src/lib.rs:118-129 | the identity expander inverts the identity compressor on every string |
| TestCodecs.TestMemoryModuleRoundtrip | src/lib.rs:132-142 | a module built from "test context" with the identity compressor expands to "test context" |

## Left out

- `ZlibCompressor` and `ZlibExpander` (llm-streamliner/src/compression.rs) are not part of this model. They only call the `flate2` library, whose zlib code is not in the repository. The round trips are proved for any codec pair in which the expander inverts the compressor.
- `src/storage.rs` is not part of this model. It writes and reads whole files through Tokio, and its round trip is a property of the file system.
- The JSON text is not modelled: neither how `serde_json` prints it nor how it parses it. `from_json` therefore has no case for malformed text. Fractional numbers are also left out, since no field holds one.
- `CompressionError` and `SerializationError` keep only their kind. The wrapped `std::io::Error` and `serde_json::Error`, and the `Display` texts of `StreamlinerError`, are dropped.
- `async`/`await` and `async_trait` are dropped: every operation is a synchronous call.
- Memory.MemoryModule.Expand: no contract of its own. It passes `compressed_data` to the expander and only reads the module. What callers rely on is stated by SetMetadata, CompressAndExpand and PersistAndExpand.
- Memory.MemoryModule.Metadata: no contract of its own. It returns the field, and SetMetadata states what it returns after an update.
- Rust's size limits on `String` and `Vec` are not modelled: sequences are unbounded.
