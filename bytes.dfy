/**
 * Bytes and the UTF-8 encoding of text, as Python's `str.encode()` does it
 * (the default codec is "utf-8").
 */
module Bytes {

  type byte = b: int | 0 <= b < 256

  /** Every character is in the 7-bit ASCII range. */
  predicate IsAscii(s: string)
  {
    forall i :: 0 <= i < |s| ==> s[i] as int < 128
  }

  /** True of the bytes 0x80..0xBF that follow the lead byte of a multi-byte sequence. */
  predicate IsContinuation(b: byte)
  {
    0x80 <= b < 0xC0
  }

  /** The UTF-8 encoding of one Unicode scalar value (RFC 3629, section 3). */
  function EncodeChar(c: char): (r: seq<byte>)
    ensures 1 <= |r| <= 4
    ensures |r| == 1 <==> c as int < 0x80
    ensures r[0] < 0x80 <==> |r| == 1
    ensures |r| == 1 ==> r[0] == c as int
    ensures forall i :: 1 <= i < |r| ==> IsContinuation(r[i])
  {
    var n := c as int;
    if n < 0x80 then [n]
    else if n < 0x800 then [0xC0 + n / 0x40, 0x80 + n % 0x40]
    else if n < 0x1_0000 then [0xE0 + n / 0x1000, 0x80 + (n / 0x40) % 0x40, 0x80 + n % 0x40]
    else [0xF0 + n / 0x4_0000, 0x80 + (n / 0x1000) % 0x40, 0x80 + (n / 0x40) % 0x40, 0x80 + n % 0x40]
  }

  /** `s.encode("utf-8")`: the characters' encodings, one after another. */
  function EncodeUtf8(s: string): (r: seq<byte>)
    ensures |s| <= |r| <= 4 * |s|
  {
    if s == [] then [] else EncodeChar(s[0]) + EncodeUtf8(s[1..])
  }

  /**
   * The encoding keeps the length exactly when the text is ASCII, and then
   * each byte is the character's code.
   */
  lemma {:induction false} EncodeUtf8KeepsLengthIffAscii(s: string)
    ensures |EncodeUtf8(s)| == |s| <==> IsAscii(s)
    ensures IsAscii(s) ==> forall i :: 0 <= i < |s| ==> EncodeUtf8(s)[i] == s[i] as int
  {
    if s != [] {
      EncodeUtf8KeepsLengthIffAscii(s[1..]);
      assert IsAscii(s) <==> s[0] as int < 0x80 && IsAscii(s[1..]) by {
        if s[0] as int < 0x80 && IsAscii(s[1..]) {
          forall i | 0 <= i < |s| ensures s[i] as int < 128 {
            if i > 0 { assert s[i] == s[1..][i - 1]; }
          }
        }
        if IsAscii(s) {
          forall i | 0 <= i < |s[1..]| ensures s[1..][i] as int < 128 {
            assert s[1..][i] == s[i + 1];
          }
        }
      }
      if IsAscii(s) {
        forall i | 0 <= i < |s| ensures EncodeUtf8(s)[i] == s[i] as int {
          if i > 0 { assert EncodeUtf8(s)[i] == EncodeUtf8(s[1..])[i - 1]; }
        }
      }
    }
  }
}
