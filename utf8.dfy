/**
 * UTF-8 as Go's `unicode/utf8` decodes it, and the repair `encoding/json` applies when it
 * writes a string: every byte that does not start a valid encoding is written as U+FFFD.
 */
module Utf8 {
  import opened GoStrings

  predicate IsContinuation(b: byte) {
    0x80 <= b <= 0xBF
  }

  /**
   * `utf8.DecodeRune`'s verdict on the start of `s`: the length of the valid encoding it
   * starts with, 0 when the first byte starts none (overlong forms, surrogates and code
   * points above U+10FFFF included).
   */
  function RuneLen(s: Bytes): (n: nat)
    requires |s| > 0
    ensures n <= 4 && n <= |s|
  {
    var b0 := s[0];
    if b0 < 0x80 then 1
    else if 0xC2 <= b0 <= 0xDF then
      if |s| >= 2 && IsContinuation(s[1]) then 2 else 0
    else if 0xE0 <= b0 <= 0xEF then
      var lo := if b0 == 0xE0 then 0xA0 else 0x80;
      var hi := if b0 == 0xED then 0x9F else 0xBF;
      if |s| >= 3 && lo <= s[1] <= hi && IsContinuation(s[2]) then 3 else 0
    else if 0xF0 <= b0 <= 0xF4 then
      var lo := if b0 == 0xF0 then 0x90 else 0x80;
      var hi := if b0 == 0xF4 then 0x8F else 0xBF;
      if |s| >= 4 && lo <= s[1] <= hi && IsContinuation(s[2]) && IsContinuation(s[3]) then 4 else 0
    else 0
  }

  /** `utf8.ValidString`. */
  predicate IsValid(s: Bytes)
    decreases |s|
  {
    s == [] || (RuneLen(s) > 0 && IsValid(s[RuneLen(s)..]))
  }

  /** U+FFFD, the replacement character. */
  const Replacement: Bytes := [0xEF, 0xBF, 0xBD]

  /** The string `encoding/json` writes for `s`: each byte that starts no valid encoding becomes U+FFFD. */
  function ReplaceInvalid(s: Bytes): (r: Bytes)
    ensures IsValid(r)
    decreases |s|
  {
    if s == [] then []
    else
      var n := RuneLen(s);
      if n == 0 then
        var rest := ReplaceInvalid(s[1..]);
        RuneThenValid(Replacement, rest);
        Replacement + rest
      else
        var rest := ReplaceInvalid(s[n..]);
        RuneThenValid(s[..n], rest);
        s[..n] + rest
  }

  /** A single valid encoding followed by valid text is valid text. */
  lemma RuneThenValid(e: Bytes, t: Bytes)
    requires |e| > 0 && RuneLen(e) == |e| && IsValid(t)
    ensures IsValid(e + t)
  {
    assert (e + t)[..|e|] == e;
    RuneLenOfPrefix(e + t, |e|);
    assert (e + t)[|e|..] == t;
  }

  /** `RuneLen` reads no further than the encoding it reports. */
  lemma RuneLenOfPrefix(s: Bytes, n: nat)
    requires 0 < n <= |s| && RuneLen(s[..n]) == n
    ensures RuneLen(s) == n
  {
  }

  /** Valid text is written as it is. */
  lemma {:induction false} ReplaceInvalidKeepsValid(s: Bytes)
    requires IsValid(s)
    ensures ReplaceInvalid(s) == s
    decreases |s|
  {
    if s != [] {
      var n := RuneLen(s);
      ReplaceInvalidKeepsValid(s[n..]);
      assert s == s[..n] + s[n..];
    }
  }

  /** ASCII text is valid UTF-8. */
  lemma {:induction false} AsciiIsValid(s: Bytes)
    requires forall i :: 0 <= i < |s| ==> s[i] < 0x80
    ensures IsValid(s)
    decreases |s|
  {
    if s != [] {
      AsciiIsValid(s[1..]);
    }
  }
}
