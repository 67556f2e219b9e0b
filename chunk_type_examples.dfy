/** The concrete cases exercised by the unit tests of the chunk-type tag,
    proved from the model. */
module ChunkTypeExamples {
  import Utf8
  import opened ChunkTypes

  /** Building from [82, 117, 83, 116] succeeds and keeps the bytes. */
  lemma FromBytesExample()
    ensures TryFrom([82, 117, 83, 116]).Ok?
    ensures TryFrom([82, 117, 83, 116]).value.Bytes() == [82, 117, 83, 116]
  {
  }

  /** "RuSt" parses to the same tag as the bytes [82, 117, 83, 116]. */
  lemma FromStrExample()
    ensures FromStr("RuSt").Ok?
    ensures FromStr("RuSt") == TryFrom([82, 117, 83, 116])
  {
    FromStrIsTryFrom("RuSt", [82, 117, 83, 116]);
  }

  /** "RuSt" is critical, "ruSt" is not. */
  lemma CriticalExamples()
    ensures FromStr("RuSt").Ok? && FromStr("RuSt").value.IsCritical()
    ensures FromStr("ruSt").Ok? && !FromStr("ruSt").value.IsCritical()
  {
  }

  /** "RUSt" is public, "RuSt" is not. */
  lemma PublicExamples()
    ensures FromStr("RUSt").Ok? && FromStr("RUSt").value.IsPublic()
    ensures FromStr("RuSt").Ok? && !FromStr("RuSt").value.IsPublic()
  {
  }

  /** "RuSt" has a valid reserved bit, "Rust" does not. */
  lemma ReservedBitExamples()
    ensures FromStr("RuSt").Ok? && FromStr("RuSt").value.IsReservedBitValid()
    ensures FromStr("Rust").Ok? && !FromStr("Rust").value.IsReservedBitValid()
  {
  }

  /** "RuSt" is safe to copy, "RuST" is not. */
  lemma SafeToCopyExamples()
    ensures FromStr("RuSt").Ok? && FromStr("RuSt").value.IsSafeToCopy()
    ensures FromStr("RuST").Ok? && !FromStr("RuST").value.IsSafeToCopy()
  {
  }

  /** "RuSt" is valid; "Rust" is built but not valid, because its reserved
      bit is set. */
  lemma ValidityExamples()
    ensures FromStr("RuSt").Ok? && FromStr("RuSt").value.IsValid()
    ensures FromStr("Rust").Ok? && !FromStr("Rust").value.IsValid()
  {
  }

  /** "Ru1t" is refused: '1' is not a letter. */
  lemma RejectionExample()
    ensures FromStr("Ru1t") == Err(InvalidTypeBytes)
  {
  }

  /** "RuSt" renders back as "RuSt". */
  lemma ToStringExample()
    ensures FromStr("RuSt").Ok? && FromStr("RuSt").value.ToString() == "RuSt"
  {
    FromStrToString("RuSt");
  }

  /** The length check counts UTF-8 bytes, not characters: two two-byte
      characters pass it and are then refused as non-letters, while four
      letters followed by a non-ASCII character fail it. */
  lemma Utf8LengthExamples()
    ensures FromStr("éé") == Err(InvalidTypeBytes)
    ensures FromStr("RuSté") == Err(InvalidLength)
  {
    assert Utf8.Encode("éé") == [0xC3, 0xA9, 0xC3, 0xA9];
  }
}
