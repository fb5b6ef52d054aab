/**
 UTF-8 well-formedness, the check the standard library's `from_utf8` makes
 before a byte string is accepted as text (Table 3-7 of the Unicode
 Standard, "Well-Formed UTF-8 Byte Sequences").
 */
module Utf8 {
  import opened Cursor

  predicate IsContinuation(b: byte) {
    0x80 <= b <= 0xBF
  }

  /** The length of the well-formed code point encoding that starts `s`,
      or 0 when `s` does not start with one. */
  function EncodingLength(s: Bytes): (n: nat)
    requires |s| > 0
    ensures n <= 4 && n <= |s|
    ensures s[0] < 0x80 ==> n == 1
    ensures n == 1 ==> s[0] < 0x80
  {
    var b := s[0];
    if b < 0x80 then 1
    else if 0xC2 <= b <= 0xDF then
      if |s| >= 2 && IsContinuation(s[1]) then 2 else 0
    else if b == 0xE0 then
      if |s| >= 3 && 0xA0 <= s[1] <= 0xBF && IsContinuation(s[2]) then 3 else 0
    else if (0xE1 <= b <= 0xEC) || (0xEE <= b <= 0xEF) then
      if |s| >= 3 && IsContinuation(s[1]) && IsContinuation(s[2]) then 3 else 0
    else if b == 0xED then
      if |s| >= 3 && 0x80 <= s[1] <= 0x9F && IsContinuation(s[2]) then 3 else 0
    else if b == 0xF0 then
      if |s| >= 4 && 0x90 <= s[1] <= 0xBF && IsContinuation(s[2]) && IsContinuation(s[3]) then 4 else 0
    else if 0xF1 <= b <= 0xF3 then
      if |s| >= 4 && IsContinuation(s[1]) && IsContinuation(s[2]) && IsContinuation(s[3]) then 4 else 0
    else if b == 0xF4 then
      if |s| >= 4 && 0x80 <= s[1] <= 0x8F && IsContinuation(s[2]) && IsContinuation(s[3]) then 4 else 0
    else 0
  }

  /** `s` is a concatenation of well-formed code point encodings. */
  predicate ValidUtf8(s: Bytes)
    decreases |s|
  {
    |s| == 0 || (var n := EncodingLength(s); n > 0 && ValidUtf8(s[n..]))
  }

  predicate IsAscii(s: Bytes) {
    forall j :: 0 <= j < |s| ==> s[j] < 0x80
  }

  /** Every ASCII byte string is valid UTF-8. */
  lemma {:induction false} AsciiIsValid(s: Bytes)
    requires IsAscii(s)
    ensures ValidUtf8(s)
    decreases |s|
  {
    if |s| > 0 {
      assert EncodingLength(s) == 1;
      assert IsAscii(s[1..]) by {
        forall j | 0 <= j < |s[1..]| ensures s[1..][j] < 0x80 {
          assert s[1..][j] == s[j + 1];
        }
      }
      AsciiIsValid(s[1..]);
    }
  }
}
