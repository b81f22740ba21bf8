/** Well-formed UTF-8, the check that `String::from_utf8` performs before the
    `unwrap` of src/packet/raw/mod.rs:18 and that every Rust `String` satisfies. A
    byte sequence is well formed when it splits into the sequences of table 3-7 of
    the Unicode Standard (section 3.9): no overlong forms, no surrogates, nothing
    above U+10FFFF. */
module Utf8 {
  import opened Serialization

  function Continuation(b: Byte): bool
  {
    0x80 <= b <= 0xBF
  }

  /** The length of the well-formed sequence that starts `s`, or 0 if `s` does not
      start with one. */
  function LeadingSequenceLength(s: seq<Byte>): (n: nat)
    requires |s| > 0
    ensures n <= 4 && n <= |s|
    ensures s[0] < 0x80 ==> n == 1
  {
    var b := s[0];
    if b <= 0x7F then 1
    else if 0xC2 <= b <= 0xDF then
      if |s| >= 2 && Continuation(s[1]) then 2 else 0
    else if 0xE0 <= b <= 0xEF then
      var lo, hi := if b == 0xE0 then 0xA0 else 0x80, if b == 0xED then 0x9F else 0xBF;
      if |s| >= 3 && lo <= s[1] <= hi && Continuation(s[2]) then 3 else 0
    else if 0xF0 <= b <= 0xF4 then
      var lo, hi := if b == 0xF0 then 0x90 else 0x80, if b == 0xF4 then 0x8F else 0xBF;
      if |s| >= 4 && lo <= s[1] <= hi && Continuation(s[2]) && Continuation(s[3]) then 4 else 0
    else 0
  }

  predicate ValidUtf8(s: seq<Byte>)
    decreases |s|
  {
    s == [] || (var n := LeadingSequenceLength(s); n > 0 && ValidUtf8(s[n..]))
  }

  /** Bytes below 0x80 are well formed: every ASCII string is a Rust `String`. */
  lemma {:induction false} AsciiValid(s: seq<Byte>)
    requires forall i :: 0 <= i < |s| ==> s[i] < 0x80
    ensures ValidUtf8(s)
    decreases |s|
  {
    if s != [] {
      assert forall i :: 0 <= i < |s[1..]| ==> s[1..][i] < 0x80 by {
        forall i | 0 <= i < |s[1..]| ensures s[1..][i] < 0x80 {
          assert s[1..][i] == s[i + 1];
        }
      }
      AsciiValid(s[1..]);
    }
  }

  /** A well-formed sequence never starts with a continuation byte. */
  lemma NoLeadingContinuation(s: seq<Byte>)
    requires ValidUtf8(s) && s != []
    ensures !Continuation(s[0])
  {
  }

  /** The bytes of a Rust `String`. */
  type Utf8Bytes = s: seq<Byte> | ValidUtf8(s) witness []
}
