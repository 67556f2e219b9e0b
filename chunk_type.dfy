/** The PNG chunk-type tag: four bytes whose letter case carries the chunk's
    property bits, following section 3.3 ("Chunk naming conventions") of the
    PNG 1.2 specification. */
module ChunkTypes {
  import Utf8
  type Byte = Utf8.Byte

  /** Exactly four bytes, as the source's `[u8; 4]`. */
  type Bytes4 = s: seq<Byte> | |s| == 4 witness [0, 0, 0, 0]

  /** Why a tag could not be built: the text was not four bytes long, or a
      byte was not an ASCII letter. */
  datatype Error = InvalidLength | InvalidTypeBytes

  datatype Result<T> = Ok(value: T) | Err(error: Error)

  /** `u8::is_ascii_uppercase`: `A` .. `Z`. */
  predicate IsUpper(b: Byte) {
    65 <= b <= 90
  }

  /** `u8::is_ascii_lowercase`: `a` .. `z`. */
  predicate IsLower(b: Byte) {
    97 <= b <= 122
  }

  /** `u8::is_ascii_alphabetic`. */
  predicate IsAlpha(b: Byte) {
    IsUpper(b) || IsLower(b)
  }

  /** A character that is an ASCII letter. */
  predicate IsAlphaChar(c: char) {
    'A' <= c <= 'Z' || 'a' <= c <= 'z'
  }

  /** Every byte of `bs` is an ASCII letter. */
  ghost predicate AllAlpha(bs: seq<Byte>) {
    forall i | 0 <= i < |bs| :: IsAlpha(bs[i])
  }

  /** The property bit of PNG 1.2 section 3.3: bit 5 (value 32) of a type
      byte. Clear means critical, public, reserved-valid, unsafe-to-copy. */
  predicate PropertyBit(b: Byte) {
    (b / 0x20) % 2 == 1
  }

  /** The source's `iter().fold(acc, |acc, byte| acc && byte.is_ascii_alphabetic())`. */
  function FoldAlpha(acc: bool, bs: seq<Byte>): bool {
    if |bs| == 0 then acc else FoldAlpha(acc && IsAlpha(bs[0]), bs[1..])
  }

  /** The fold is the conjunction of its seed with "every byte is a letter". */
  lemma {:induction false} FoldAlphaMeaning(acc: bool, bs: seq<Byte>)
    ensures FoldAlpha(acc, bs) <==> acc && AllAlpha(bs)
  {
    if |bs| > 0 {
      FoldAlphaMeaning(acc && IsAlpha(bs[0]), bs[1..]);
      assert AllAlpha(bs) <==> IsAlpha(bs[0]) && AllAlpha(bs[1..]) by {
        if IsAlpha(bs[0]) && AllAlpha(bs[1..]) {
          forall i | 0 <= i < |bs| ensures IsAlpha(bs[i]) {
            if i > 0 { assert bs[i] == bs[1..][i - 1]; }
          }
        }
      }
    }
  }

  /** For a letter, the case test agrees with the PNG property bit:
      uppercase exactly when bit 5 is clear. */
  lemma CaseIsPropertyBit(b: Byte)
    requires IsAlpha(b)
    ensures IsUpper(b) <==> !PropertyBit(b)
    ensures IsLower(b) <==> PropertyBit(b)
  {
  }

  /** A chunk-type tag. Equality is the datatype's, i.e. byte-wise. */
  datatype ChunkType = ChunkType(chunkType: Bytes4) {

    /** The raw bytes of the tag: all there is to it, so the tag is rebuilt
        from them, and they are letters exactly when it was constructed. */
    function Bytes(): (r: Bytes4)
      ensures ChunkType(r) == this
      ensures Constructed() <==> AllAlpha(r)
    {
      chunkType
    }

    /** What `try_from` and `from_str` establish: all four bytes are
        letters. Not implied by the type, because `Default` bypasses it. */
    ghost predicate Constructed() {
      AllAlpha(chunkType)
    }

    /** Critical (not ancillary): byte 0 is uppercase. */
    function IsCritical(): (r: bool)
      ensures r ==> !PropertyBit(chunkType[0])
      ensures IsAlpha(chunkType[0]) ==> (r <==> !PropertyBit(chunkType[0]))
    {
      IsUpper(chunkType[0])
    }

    /** Public (not private): byte 1 is uppercase. */
    function IsPublic(): (r: bool)
      ensures r ==> !PropertyBit(chunkType[1])
      ensures IsAlpha(chunkType[1]) ==> (r <==> !PropertyBit(chunkType[1]))
    {
      IsUpper(chunkType[1])
    }

    /** Reserved bit valid: byte 2 is uppercase. */
    function IsReservedBitValid(): (r: bool)
      ensures r ==> !PropertyBit(chunkType[2])
      ensures IsAlpha(chunkType[2]) ==> (r <==> !PropertyBit(chunkType[2]))
    {
      IsUpper(chunkType[2])
    }

    /** Safe to copy: byte 3 is lowercase. */
    function IsSafeToCopy(): (r: bool)
      ensures r ==> PropertyBit(chunkType[3])
      ensures IsAlpha(chunkType[3]) ==> (r <==> PropertyBit(chunkType[3]))
    {
      IsLower(chunkType[3])
    }

    /** Valid: reserved bit valid and all four bytes letters. */
    function IsValid(): (r: bool)
      ensures r <==> IsReservedBitValid() && Constructed()
    {
      FoldAlphaMeaning(true, chunkType);
      IsReservedBitValid() && FoldAlpha(true, chunkType)
    }

    /** `Display`: each byte rendered as the character with that code, in order. */
    function ToString(): (r: string)
      ensures |r| == 4
      ensures Constructed() ==> forall i | 0 <= i < 4 :: IsAlphaChar(r[i])
    {
      seq(4, i requires 0 <= i < 4 => chunkType[i] as int as char)
    }

    /** `#[derive(Default)]`: the all-zero tag, which no constructor yields. */
    static function Default(): (t: ChunkType)
      ensures !t.Constructed() && !t.IsValid()
      ensures TryFrom(t.Bytes()).Err?
    {
      FoldAlphaMeaning(true, [0, 0, 0, 0]);
      ChunkType([0, 0, 0, 0])
    }
  }

  /** `TryFrom<[u8; 4]>`: accepts exactly the all-letter byte arrays and
      keeps them unchanged. */
  function TryFrom(bytes: Bytes4): (r: Result<ChunkType>)
    ensures r.Ok? <==> AllAlpha(bytes)
    ensures r.Ok? ==> r.value.Bytes() == bytes && r.value.Constructed()
    ensures r.Err? ==> r.error == InvalidTypeBytes
  {
    FoldAlphaMeaning(true, bytes);
    var result := ChunkType(bytes);
    if FoldAlpha(true, bytes) then Ok(result) else Err(InvalidTypeBytes)
  }

  /** When a string's UTF-8 bytes are all letters, the string is made of
      the same letters, one byte per character. */
  lemma LetterBytesAreLetterChars(s: string)
    requires AllAlpha(Utf8.Encode(s))
    ensures |Utf8.Encode(s)| == |s|
    ensures forall i | 0 <= i < |s| :: IsAlphaChar(s[i]) && Utf8.Encode(s)[i] as int == s[i] as int
  {
    Utf8.AsciiBytesComeFromAscii(s);
    Utf8.EncodeAscii(s);
  }

  /** `FromStr`: the string's UTF-8 bytes must be exactly four, and are
      then handed to `TryFrom`. Accepts exactly the four-letter strings. */
  function FromStr(s: string): (r: Result<ChunkType>)
    ensures r.Ok? <==> |s| == 4 && forall i | 0 <= i < 4 :: IsAlphaChar(s[i])
    ensures r.Ok? ==> r.value.Constructed() && forall i | 0 <= i < 4 :: r.value.Bytes()[i] as int == s[i] as int
    ensures r.Err? ==> (r.error == InvalidLength <==> |Utf8.Encode(s)| != 4)
  {
    var bytes := Utf8.Encode(s);
    if |bytes| != 4 then
      assert !(|s| == 4 && forall i | 0 <= i < 4 :: IsAlphaChar(s[i])) by {
        if |s| == 4 && forall i | 0 <= i < 4 :: IsAlphaChar(s[i]) { Utf8.EncodeAscii(s); }
      }
      Err(InvalidLength)
    else
      assert TryFrom(bytes).Ok? <==> |s| == 4 && forall i | 0 <= i < 4 :: IsAlphaChar(s[i]) by {
        if TryFrom(bytes).Ok? { LetterBytesAreLetterChars(s); }
        if |s| == 4 && forall i | 0 <= i < 4 :: IsAlphaChar(s[i]) { Utf8.EncodeAscii(s); }
      }
      assert TryFrom(bytes).Ok? ==> forall i | 0 <= i < 4 :: bytes[i] as int == s[i] as int by {
        if TryFrom(bytes).Ok? { LetterBytesAreLetterChars(s); }
      }
      TryFrom(bytes)
  }

  /** For an ASCII string of length four, `FromStr` is `TryFrom` of the
      characters' codes, e.g. "RuSt" and [82, 117, 83, 116]. */
  lemma FromStrIsTryFrom(s: string, bytes: Bytes4)
    requires |s| == 4
    requires forall i | 0 <= i < 4 :: Utf8.IsAscii(s[i]) && bytes[i] as int == s[i] as int
    ensures FromStr(s) == TryFrom(bytes)
  {
    Utf8.EncodeAscii(s);
    assert Utf8.Encode(s) == bytes;
  }

  /** Tags from either constructor are equal exactly when their bytes are. */
  lemma TryFromInjective(a: Bytes4, b: Bytes4)
    requires TryFrom(a).Ok? && TryFrom(b).Ok?
    ensures TryFrom(a).value == TryFrom(b).value <==> a == b
  {
  }

  /** On a constructed tag `IsValid` is exactly `IsReservedBitValid`: the
      letter check it adds never fails. */
  lemma ConstructedValidIsReserved(t: ChunkType)
    requires t.Constructed()
    ensures t.IsValid() == t.IsReservedBitValid()
  {
  }

  /** Every successfully parsed string yields a tag whose validity is its
      reserved bit. */
  lemma ParsedValidIsReserved(s: string)
    requires FromStr(s).Ok?
    ensures FromStr(s).value.IsValid() == FromStr(s).value.IsReservedBitValid()
  {
    ConstructedValidIsReserved(FromStr(s).value);
  }

  /** On a constructed tag the four getters read PNG's bit 5 of bytes 0..3. */
  lemma PropertiesFollowPng(t: ChunkType)
    requires t.Constructed()
    ensures t.IsCritical() <==> !PropertyBit(t.Bytes()[0])
    ensures t.IsPublic() <==> !PropertyBit(t.Bytes()[1])
    ensures t.IsReservedBitValid() <==> !PropertyBit(t.Bytes()[2])
    ensures t.IsSafeToCopy() <==> PropertyBit(t.Bytes()[3])
  {
  }

  /** Rendering a parsed tag gives back the string it was parsed from. */
  lemma FromStrToString(s: string)
    requires FromStr(s).Ok?
    ensures FromStr(s).value.ToString() == s
  {
  }

  /** Parsing the rendering of a constructed tag gives back the tag. */
  lemma ToStringFromStr(t: ChunkType)
    requires t.Constructed()
    ensures FromStr(t.ToString()) == Ok(t)
  {
    var s := t.ToString();
    var r := FromStr(s);
    assert r.Ok?;
    assert r.value.Bytes() == t.Bytes() by {
      forall i | 0 <= i < 4 ensures r.value.Bytes()[i] == t.Bytes()[i] {
        assert r.value.Bytes()[i] as int == s[i] as int == t.Bytes()[i] as int;
      }
    }
  }
}
