/** UTF-8 well-formedness, as Rust's `str::from_utf8` checks it (the well-formed byte
    sequences of the Unicode Standard, table 3-7). rmpv keeps a MessagePack string as raw
    bytes and only yields a Rust `str` when this check succeeds. */
module Utf8 {
  import opened Bytes

  predicate IsContinuation(b: byte) {
    0x80 <= b <= 0xBF
  }

  /** The length of the well-formed scalar at the start of s, or 0 when s does not start
      with one. */
  function ScalarLength(s: seq<byte>): (n: nat)
    requires |s| > 0
    ensures n <= |s| && n <= 4
  {
    var b := s[0];
    if b < 0x80 then 1
    else if 0xC2 <= b <= 0xDF then
      (if |s| >= 2 && IsContinuation(s[1]) then 2 else 0)
    else if b == 0xE0 then
      (if |s| >= 3 && 0xA0 <= s[1] <= 0xBF && IsContinuation(s[2]) then 3 else 0)
    else if (0xE1 <= b <= 0xEC) || (0xEE <= b <= 0xEF) then
      (if |s| >= 3 && IsContinuation(s[1]) && IsContinuation(s[2]) then 3 else 0)
    else if b == 0xED then
      (if |s| >= 3 && 0x80 <= s[1] <= 0x9F && IsContinuation(s[2]) then 3 else 0)
    else if b == 0xF0 then
      (if |s| >= 4 && 0x90 <= s[1] <= 0xBF && IsContinuation(s[2]) && IsContinuation(s[3]) then 4 else 0)
    else if 0xF1 <= b <= 0xF3 then
      (if |s| >= 4 && IsContinuation(s[1]) && IsContinuation(s[2]) && IsContinuation(s[3]) then 4 else 0)
    else if b == 0xF4 then
      (if |s| >= 4 && 0x80 <= s[1] <= 0x8F && IsContinuation(s[2]) && IsContinuation(s[3]) then 4 else 0)
    else 0
  }

  /** s is a sequence of well-formed UTF-8 scalars. */
  predicate IsUtf8(s: seq<byte>)
    decreases |s|
  {
    |s| == 0 || (ScalarLength(s) > 0 && IsUtf8(s[ScalarLength(s)..]))
  }

  /** Every ASCII string is UTF-8, which covers every field name of the protocol. */
  lemma {:induction false} AsciiIsUtf8(s: seq<byte>)
    requires forall i :: 0 <= i < |s| ==> s[i] < 0x80
    ensures IsUtf8(s)
    decreases |s|
  {
    if |s| > 0 {
      assert ScalarLength(s) == 1;
      AsciiIsUtf8(s[1..]);
    }
  }

  /** `IsUtf8` rejects a lone continuation byte. */
  lemma ContinuationAloneIsNotUtf8(b: byte)
    requires IsContinuation(b)
    ensures !IsUtf8([b])
  {
  }
}
