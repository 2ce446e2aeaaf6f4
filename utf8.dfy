/** Rust `String`s are UTF-8 byte strings. The model keeps text as Dafny
    `string` (a sequence of Unicode scalar values) and recovers the bytes
    Rust sees with the UTF-8 encoding below, so that `String::len` (a byte
    count) and `str::as_bytes` are exact. */
module Utf8 {
  import opened Bytes

  /** The UTF-8 encoding of one scalar value: 1 to 4 bytes. */
  function CharBytes(c: char): (r: seq<byte>)
    ensures 1 <= |r| <= 4
    ensures (|r| == 1) == (c as int < 0x80)
    ensures |r| == 1 ==> r[0] == c as int
    ensures |r| > 1 ==> forall i :: 0 <= i < |r| ==> r[i] >= 0x80
  {
    var n := c as int;
    if n < 0x80 then [n]
    else if n < 0x800 then [0xC0 + n / 0x40, 0x80 + n % 0x40]
    else if n < 0x1_0000 then [0xE0 + n / 0x1000, 0x80 + (n / 0x40) % 0x40, 0x80 + n % 0x40]
    else [0xF0 + n / 0x4_0000, 0x80 + (n / 0x1000) % 0x40, 0x80 + (n / 0x40) % 0x40, 0x80 + n % 0x40]
  }

  /** `s.as_bytes()`: the concatenated encodings of the scalar values of `s`. */
  function Encode(s: string): (bytes: seq<byte>)
  {
    if s == [] then [] else CharBytes(s[0]) + Encode(s[1..])
  }

  /** `s.len()`: the length of `s` in bytes, not in characters. */
  function Len(s: string): (n: nat)
  {
    |Encode(s)|
  }

  predicate IsAscii(s: string)
  {
    forall i :: 0 <= i < |s| ==> s[i] as int < 0x80
  }

  /** No string is shorter in bytes than in characters. */
  lemma {:induction false} LenAtLeastChars(s: string)
    ensures Len(s) >= |s|
  {
    if s != [] {
      LenAtLeastChars(s[1..]);
    }
  }

  /** No string is longer in bytes than four times its character count. */
  lemma {:induction false} LenAtMostFourPerChar(s: string)
    ensures Len(s) <= 4 * |s|
  {
    if s != [] {
      LenAtMostFourPerChar(s[1..]);
    }
  }

  /** For ASCII text the byte length and the character count agree. */
  lemma {:induction false} AsciiLen(s: string)
    requires IsAscii(s)
    ensures Len(s) == |s|
  {
    if s != [] {
      assert IsAscii(s[1..]) by {
        forall i | 0 <= i < |s[1..]| ensures s[1..][i] as int < 0x80 {
          assert s[1..][i] == s[i + 1];
        }
      }
      AsciiLen(s[1..]);
    }
  }
}
