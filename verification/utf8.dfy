/**
 * Well-formed UTF-8, as Rust's `str::from_utf8` accepts it: the byte
 * sequences of table 3-7 of the Unicode Standard (no overlong forms, no
 * surrogates, nothing above U+10FFFF).
 */
module Utf8 {
  import opened Ints

  predicate IsContinuation(b: Byte) { 0x80 <= b <= 0xBF }

  /** Length of the well-formed scalar encoding at the head of `s`, or 0 if there is none. */
  function ScalarLength(s: seq<Byte>): (n: nat)
    ensures n <= |s| && n <= 4
    ensures |s| > 0 && s[0] < 0x80 ==> n == 1
    ensures n > 0 ==> (s[0] < 0x80 <==> n == 1)
  {
    if |s| == 0 then 0
    else
      var b := s[0];
      if b < 0x80 then 1
      else if 0xC2 <= b <= 0xDF then
        if |s| >= 2 && IsContinuation(s[1]) then 2 else 0
      else if 0xE0 <= b <= 0xEF then
        var lo := if b == 0xE0 then 0xA0 else 0x80;
        var hi := if b == 0xED then 0x9F else 0xBF;
        if |s| >= 3 && lo <= s[1] <= hi && IsContinuation(s[2]) then 3 else 0
      else if 0xF0 <= b <= 0xF4 then
        var lo := if b == 0xF0 then 0x90 else 0x80;
        var hi := if b == 0xF4 then 0x8F else 0xBF;
        if |s| >= 4 && lo <= s[1] <= hi && IsContinuation(s[2]) && IsContinuation(s[3]) then 4 else 0
      else 0
  }

  /** `s` is a concatenation of well-formed scalar encodings. */
  predicate IsUtf8(s: seq<Byte>)
    decreases |s|
  {
    |s| == 0 || (ScalarLength(s) > 0 && IsUtf8(s[ScalarLength(s)..]))
  }

  /** Seven-bit ASCII is well-formed UTF-8. */
  lemma {:induction false} AsciiIsUtf8(s: seq<Byte>)
    requires forall i :: 0 <= i < |s| ==> s[i] < 0x80
    ensures IsUtf8(s)
    decreases |s|
  {
    if |s| > 0 {
      AsciiIsUtf8(s[1..]);
    }
  }
}
