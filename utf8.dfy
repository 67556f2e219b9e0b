/** The UTF-8 encoding of a string, as produced by Rust's `str::as_bytes`.
    Only what `ChunkType::from_str` relies on is proved: ASCII characters
    encode to themselves, and every byte of a non-ASCII character's
    encoding has its high bit set. */
module Utf8 {

  /** An unsigned 8-bit value, as Rust's `u8`. */
  newtype Byte = b: int | 0 <= b < 0x100

  /** A character in the 7-bit ASCII range, encoded as one byte. */
  predicate IsAscii(c: char) {
    c as int < 0x80
  }

  /** A continuation byte `10xxxxxx` carrying the low six bits of `n`. */
  function ContinuationByte(n: nat): (r: Byte)
    ensures r >= 0x80
  {
    (0x80 + n % 0x40) as Byte
  }

  /** A leading byte: the length marker `prefix` with the high bits `q`. */
  function LeadByte(prefix: nat, q: nat): (r: Byte)
    requires 0xC0 <= prefix && prefix + q < 0x100
    ensures r >= 0x80
  {
    (prefix + q) as Byte
  }

  /** Every byte has its high bit set, as in a multi-byte encoding. */
  predicate AllHigh(r: seq<Byte>) {
    forall k | 0 <= k < |r| :: r[k] >= 0x80
  }

  /** The encoding of a code point below 0x80: the code itself. */
  function EncodeOne(n: nat): (r: seq<Byte>)
    requires n < 0x80
    ensures |r| == 1 && r[0] as int == n
  {
    [n as Byte]
  }

  /** The encoding of a code point in 0x80 .. 0x7FF: two bytes. */
  function EncodeTwo(n: nat): (r: seq<Byte>)
    requires n < 0x800
    ensures |r| == 2 && AllHigh(r)
  {
    [LeadByte(0xC0, n / 0x40), ContinuationByte(n)]
  }

  /** The encoding of a code point in 0x800 .. 0xFFFF: three bytes. */
  function EncodeThree(n: nat): (r: seq<Byte>)
    requires n < 0x1_0000
    ensures |r| == 3 && AllHigh(r)
  {
    [LeadByte(0xE0, n / 0x1000), ContinuationByte(n / 0x40), ContinuationByte(n)]
  }

  /** The encoding of a code point in 0x1_0000 .. 0x10_FFFF: four bytes. */
  function EncodeFour(n: nat): (r: seq<Byte>)
    requires n < 0x11_0000
    ensures |r| == 4 && AllHigh(r)
  {
    [LeadByte(0xF0, n / 0x4_0000), ContinuationByte(n / 0x1000),
     ContinuationByte(n / 0x40), ContinuationByte(n)]
  }

  /** The 1- to 4-byte UTF-8 encoding of one Unicode scalar value. */
  function EncodeChar(c: char): (r: seq<Byte>)
    ensures 1 <= |r| <= 4
    ensures IsAscii(c) <==> |r| == 1
    ensures IsAscii(c) ==> r[0] as int == c as int
    ensures !IsAscii(c) ==> AllHigh(r)
  {
    var n: nat := c as int;
    if n < 0x80 then EncodeOne(n)
    else if n < 0x800 then EncodeTwo(n)
    else if n < 0x1_0000 then EncodeThree(n)
    else EncodeFour(n)
  }

  /** The encoding of a whole string: the characters' encodings, in order. */
  function Encode(s: string): (r: seq<Byte>)
    ensures |r| >= |s|
  {
    if |s| == 0 then [] else EncodeChar(s[0]) + Encode(s[1..])
  }

  /** An all-ASCII string encodes to one byte per character, each byte
      equal to its character's code. */
  lemma {:induction false} EncodeAscii(s: string)
    requires forall i | 0 <= i < |s| :: IsAscii(s[i])
    ensures |Encode(s)| == |s|
    ensures forall i | 0 <= i < |s| :: Encode(s)[i] as int == s[i] as int
  {
    if |s| > 0 {
      EncodeAscii(s[1..]);
      assert Encode(s) == [s[0] as int as Byte] + Encode(s[1..]);
    }
  }

  /** If every byte of the encoding is below 0x80, every character is ASCII. */
  lemma {:induction false} AsciiBytesComeFromAscii(s: string)
    requires forall j | 0 <= j < |Encode(s)| :: Encode(s)[j] < 0x80
    ensures forall i | 0 <= i < |s| :: IsAscii(s[i])
  {
    if |s| > 0 {
      var head := EncodeChar(s[0]);
      assert Encode(s) == head + Encode(s[1..]);
      assert Encode(s)[0] == head[0];
      forall j | 0 <= j < |Encode(s[1..])|
        ensures Encode(s[1..])[j] < 0x80
      {
        assert Encode(s)[|head| + j] == Encode(s[1..])[j];
      }
      AsciiBytesComeFromAscii(s[1..]);
      forall i | 0 <= i < |s|
        ensures IsAscii(s[i])
      {
        if i > 0 {
          assert s[i] == s[1..][i - 1];
        }
      }
    }
  }
}
