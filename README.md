# PNG chunk-type tag (img_msg_encoder)

This project models `ChunkType` from `src/chunk_type.rs` of img_msg_encoder. That tool hides a message in a PNG file by adding an ancillary chunk. `ChunkType` is the chunk's four-byte type tag. Its two constructors accept a tag only when all four bytes are ASCII letters. Its four property flags come from the letter case of each byte, following section 3.3 ("Chunk naming conventions") of the PNG 1.2 specification.

The Rust code is pure, so the model is pure as well:

- `utf8.dfy`, module `Utf8`: the byte type `Byte` (Rust's `u8`) and the UTF-8 encoding of a string. This encoding is what `str::as_bytes` returns, and `from_str` depends on it. The module proves two facts: ASCII text encodes to itself, and every byte of a non-ASCII character's encoding is 0x80 or above.
- `chunk_type.dfy`, module `ChunkTypes`:
  - the datatype `ChunkType` over exactly four bytes, with the getters, `IsValid`, `ToString` (the `Display` impl) and `Default` (the derived `Default`);
  - `TryFrom` and `FromStr`, which return a `Result` whose error is `InvalidLength` or `InvalidTypeBytes`;
  - the lemmas tying these together.
- `chunk_type_examples.dfy`, module `ChunkTypeExamples`: each unit test of `src/chunk_type.rs`, proved from the model.

The predicate `Constructed()` ("all four bytes are letters") is the invariant that `TryFrom` and `FromStr` establish. Nothing else guarantees it. The derived `Default` gives the tag `[0, 0, 0, 0]`, which no constructor accepts. A tag like `"Rust"` is accepted, but `IsValid` is false for it because its reserved byte is lowercase. So the comment at `src/chunk_type.rs:39`, which says a constructed tag is always valid, does not match the code. The code's own test at line 151 expects `"Rust"` to be invalid. The model follows the code: for a constructed tag, `IsValid` is exactly `IsReservedBitValid`.

As an independent reference, each getter is compared with the PNG definition of a property bit: bit 5 (value 32) of the byte (`PropertyBit`). For a letter, the case test and the bit agree. For a non-letter they can differ. For example, the zero byte has bit 5 clear but is not uppercase.

## Model

| member | source | states |
|---|---|---|
| ChunkTypes.FoldAlphaMeaning | src/chunk_type.rs:64 | the `fold(true, acc && is_ascii_alphabetic)` over the bytes is true exactly when every byte is an ASCII letter |
| ChunkTypes.CaseIsPropertyBit | src/chunk_type.rs:18-36 | for an ASCII letter, uppercase holds exactly when PNG property bit 5 is clear, and lowercase exactly when it is set |
| ChunkTypes.ChunkType.Bytes | src/chunk_type.rs:14-16 | the four bytes are the whole tag: rebuilding a tag from them gives it back, and they are all letters exactly when the tag was constructed; that on success they are the input array unchanged is stated by `TryFrom` |
| ChunkTypes.ChunkType.IsCritical | src/chunk_type.rs:19-21 | a critical tag has bit 5 of byte 0 clear; for a letter byte 0 the converse holds too |
| ChunkTypes.ChunkType.IsPublic | src/chunk_type.rs:24-26 | a public tag has bit 5 of byte 1 clear; for a letter byte 1 the converse holds too |
| ChunkTypes.ChunkType.IsReservedBitValid | src/chunk_type.rs:29-31 | a reserved-valid tag has bit 5 of byte 2 clear; for a letter byte 2 the converse holds too |
| ChunkTypes.ChunkType.IsSafeToCopy | src/chunk_type.rs:34-36 | a safe-to-copy tag has bit 5 of byte 3 set; for a letter byte 3 the converse holds too |
| ChunkTypes.ChunkType.IsValid | src/chunk_type.rs:40-43 | valid exactly when the reserved bit is valid and all four bytes are ASCII letters |
| ChunkTypes.ChunkType.ToString | src/chunk_type.rs:50-57 | the rendering has four characters, and all of them are ASCII letters for a constructed tag |
| ChunkTypes.ChunkType.Default | src/chunk_type.rs:8 | the derived default tag is not all letters, is not valid, and `TryFrom` rejects its bytes |
| ChunkTypes.TryFrom | src/chunk_type.rs:59-68 | succeeds exactly when all four bytes are ASCII letters, and then keeps the bytes unchanged; otherwise fails with `InvalidTypeBytes` |
| ChunkTypes.FromStr | src/chunk_type.rs:70-76 | succeeds exactly when the string is four ASCII letters, and then holds their codes; fails with `InvalidLength` exactly when the UTF-8 encoding is not four bytes long |
| ChunkTypes.FromStrIsTryFrom | src/chunk_type.rs:73-76 | for a four-character ASCII string, `FromStr` is `TryFrom` of the character codes |
| ChunkTypes.TryFromInjective | src/chunk_type.rs:8 | two constructed tags are equal exactly when their bytes are equal |
| ChunkTypes.ConstructedValidIsReserved | src/chunk_type.rs:38-43 | on a tag whose bytes are all letters, `IsValid` equals `IsReservedBitValid` |
| ChunkTypes.ParsedValidIsReserved | src/chunk_type.rs:38-43 | on every tag produced by `FromStr`, `IsValid` equals `IsReservedBitValid` |
| ChunkTypes.PropertiesFollowPng | src/chunk_type.rs:18-36 | on a constructed tag, the four getters read PNG property bit 5 of bytes 0 to 3: clear, clear, clear, set |
| ChunkTypes.FromStrToString | src/chunk_type.rs:50-57 | rendering a tag parsed from `s` gives back `s` |
| ChunkTypes.ToStringFromStr | src/chunk_type.rs:50-76 | parsing the rendering of a constructed tag gives back the same tag |
| ChunkTypeExamples.FromBytesExample | src/chunk_type.rs:87-91 | `[82, 117, 83, 116]` is accepted and its bytes are returned unchanged |
| ChunkTypeExamples.FromStrExample | src/chunk_type.rs:93-97 | `"RuSt"` parses to the same tag as `[82, 117, 83, 116]` |
| ChunkTypeExamples.CriticalExamples | src/chunk_type.rs:100-108 | `"RuSt"` is critical and `"ruSt"` is not |
| ChunkTypeExamples.PublicExamples | src/chunk_type.rs:110-119 | `"RUSt"` is public and `"RuSt"` is not |
| ChunkTypeExamples.ReservedBitExamples | src/chunk_type.rs:121-130 | `"RuSt"` has a valid reserved bit and `"Rust"` does not |
| ChunkTypeExamples.SafeToCopyExamples | src/chunk_type.rs:132-141 | `"RuSt"` is safe to copy and `"RuST"` is not |
| ChunkTypeExamples.ValidityExamples | src/chunk_type.rs:143-151 | `"RuSt"` is valid; `"Rust"` is accepted but not valid |
| ChunkTypeExamples.RejectionExample | src/chunk_type.rs:153-154 | `"Ru1t"` is rejected with `InvalidTypeBytes` |
| ChunkTypeExamples.ToStringExample | src/chunk_type.rs:157-161 | `"RuSt"` renders back as `"RuSt"` |
| ChunkTypeExamples.Utf8LengthExamples | src/chunk_type.rs:74 | the length check counts UTF-8 bytes: `"éé"` passes it and is rejected as non-letters, while `"RuSté"` fails it |

## Left out

- The error payloads (`Box<dyn Error>`, with the message "Invalid chunk type" or the slice-conversion error) are reduced to the two variants `InvalidLength` and `InvalidTypeBytes`. Their message texts are not modelled.
- The `fmt::Formatter` plumbing of `Display` is reduced to a pure function that returns a `string`.
- `Debug` and `Clone` from the derive list add no behaviour. Derived `PartialEq`/`Eq` is Dafny's structural datatype equality.
- `Utf8.Encode` stands in for the standard library's `str::as_bytes`. Only the facts `from_str` needs are proved about it.
- `src/chunk.rs` and `src/png.rs` are not part of this model. They hold only unit tests for `Chunk` and `Png`, and those types are not defined in any shown file. So there is no chunk codec, no CRC-32 and no container model here.
- `src/main.rs` and `src/commands.rs` are not part of this model. They are command-line parsing and dispatch with no logic of their own.
- No code implements a lenient parse mode that normalises non-letter type bytes, so none is modelled.
