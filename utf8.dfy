/**
 * Well-formed UTF-8, as accepted by Rust's `std::str::from_utf8`: shortest
 * encodings only, no surrogate code points, nothing above U+10FFFF.
 */
module Utf8 {
  import opened Wire

  predicate AllAscii(s: seq<byte>)
  {
    forall i | 0 <= i < |s| :: s[i] as int < 0x80
  }

  predicate IsContinuation(c: byte)
  {
    0x80 <= c as int <= 0xBF
  }

  /** The byte after a three-byte lead `lead` (0xE0..0xEF). */
  predicate SecondOfThree(lead: int, c: byte)
  {
    if lead == 0xE0 then 0xA0 <= c as int <= 0xBF
    else if lead == 0xED then 0x80 <= c as int <= 0x9F
    else IsContinuation(c)
  }

  /** The byte after a four-byte lead `lead` (0xF0..0xF4). */
  predicate SecondOfFour(lead: int, c: byte)
  {
    if lead == 0xF0 then 0x90 <= c as int <= 0xBF
    else if lead == 0xF4 then 0x80 <= c as int <= 0x8F
    else IsContinuation(c)
  }

  predicate ValidUtf8(s: seq<byte>)
    decreases |s|
  {
    if s == [] then true
    else
      var lead := s[0] as int;
      if lead < 0x80 then ValidUtf8(s[1..])
      else if 0xC2 <= lead <= 0xDF then
        |s| >= 2 && IsContinuation(s[1]) && ValidUtf8(s[2..])
      else if 0xE0 <= lead <= 0xEF then
        |s| >= 3 && SecondOfThree(lead, s[1]) && IsContinuation(s[2]) && ValidUtf8(s[3..])
      else if 0xF0 <= lead <= 0xF4 then
        |s| >= 4 && SecondOfFour(lead, s[1]) && IsContinuation(s[2]) && IsContinuation(s[3])
        && ValidUtf8(s[4..])
      else false
  }

  /** `from_utf8` never fails on ASCII: why host, nick, username and command need no check. */
  lemma {:induction false} AsciiIsUtf8(s: seq<byte>)
    requires AllAscii(s)
    ensures ValidUtf8(s)
    decreases |s|
  {
    if s != [] {
      assert AllAscii(s[1..]) by {
        forall i | 0 <= i < |s[1..]| ensures s[1..][i] as int < 0x80 { assert s[1..][i] == s[i + 1]; }
      }
      AsciiIsUtf8(s[1..]);
    }
  }

  /**
   * An ASCII byte never sits inside a multi-byte sequence, so cutting valid UTF-8 right
   * before one leaves valid UTF-8.
   */
  lemma {:induction false} CutBeforeAscii(s: seq<byte>, j: nat)
    requires ValidUtf8(s) && j <= |s| && (j == |s| || s[j] as int < 0x80)
    ensures ValidUtf8(s[..j])
    decreases |s|
  {
    if j == |s| {
      assert s[..j] == s;
    } else if j > 0 {
      var lead := s[0] as int;
      var n := if lead < 0x80 then 1 else if lead <= 0xDF then 2 else if lead <= 0xEF then 3 else 4;
      assert n <= j;
      CutBeforeAscii(s[n..], j - n);
      var t := s[..j];
      assert t[0] == s[0] && t[n..] == s[n..][..j - n];
      assert forall i | 1 <= i < n :: t[i] == s[i];
    }
  }

  /** A lone continuation byte is not UTF-8, so `from_utf8` can reject a parameter. */
  lemma StrayContinuationRejected()
    ensures !ValidUtf8(['\U{80}'])
  {
  }
}
