/**
 * The parts of Go's `strings` package the vault relies on, over Go strings seen as what
 * they are at run time: sequences of bytes.
 */
module GoStrings {

  type byte = b: int | 0 <= b < 256
  type Bytes = seq<byte>

  /** The bytes of Go's `asciiSpace` table: tab, newline, vertical tab, form feed, carriage return, space. */
  predicate IsAsciiSpace(b: byte) {
    b == 9 || b == 10 || b == 11 || b == 12 || b == 13 || b == 32
  }

  /** `[b0, b1]` encodes U+0085 or U+00A0. */
  predicate IsSpace2(b0: byte, b1: byte) {
    b0 == 0xC2 && (b1 == 0x85 || b1 == 0xA0)
  }

  /** `[b0, b1, b2]` encodes U+1680, U+2000..U+200A, U+2028, U+2029, U+202F, U+205F or U+3000. */
  predicate IsSpace3(b0: byte, b1: byte, b2: byte) {
    || (b0 == 0xE1 && b1 == 0x9A && b2 == 0x80)
    || (b0 == 0xE2 && b1 == 0x80 && (0x80 <= b2 <= 0x8A || b2 == 0xA8 || b2 == 0xA9 || b2 == 0xAF))
    || (b0 == 0xE2 && b1 == 0x81 && b2 == 0x9F)
    || (b0 == 0xE3 && b1 == 0x80 && b2 == 0x80)
  }

  /** `e` is the UTF-8 encoding of one rune for which `unicode.IsSpace` holds. */
  predicate IsSpaceRune(e: Bytes) {
    || (|e| == 1 && IsAsciiSpace(e[0]))
    || (|e| == 2 && IsSpace2(e[0], e[1]))
    || (|e| == 3 && IsSpace3(e[0], e[1], e[2]))
  }

  /** Length of the white-space rune `s` starts with, 0 when it starts with none. */
  function LeadingSpaceLen(s: Bytes): (k: nat)
    ensures k <= |s| && k <= 3
    ensures k > 0 ==> IsSpaceRune(s[..k])
  {
    if |s| >= 1 && IsAsciiSpace(s[0]) then 1
    else if |s| >= 2 && IsSpace2(s[0], s[1]) then 2
    else if |s| >= 3 && IsSpace3(s[0], s[1], s[2]) then 3
    else 0
  }

  /** Length of the white-space rune `s` ends with, 0 when it ends with none. */
  function TrailingSpaceLen(s: Bytes): (k: nat)
    ensures k <= |s| && k <= 3
    ensures k > 0 ==> IsSpaceRune(s[|s| - k..])
  {
    var n := |s|;
    if n >= 1 && IsAsciiSpace(s[n - 1]) then 1
    else if n >= 2 && IsSpace2(s[n - 2], s[n - 1]) then 2
    else if n >= 3 && IsSpace3(s[n - 3], s[n - 2], s[n - 1]) then 3
    else 0
  }

  /** `s` is a run of white-space runes, read from the left. */
  predicate IsSpaceRun(s: Bytes)
    decreases |s|
  {
    s == [] || (LeadingSpaceLen(s) > 0 && IsSpaceRun(s[LeadingSpaceLen(s)..]))
  }

  /** `s` is `core` with runs of white space (possibly empty) before and after it. */
  ghost predicate PadsWithSpace(s: Bytes, core: Bytes) {
    exists i :: 0 <= i <= |s| - |core| && s[i..i + |core|] == core && IsSpaceRun(s[..i]) && IsSpaceRun(s[i + |core|..])
  }

  lemma PadsWithSpaceIntro(s: Bytes, core: Bytes, i: nat)
    requires i <= |s| - |core| && s[i..i + |core|] == core && IsSpaceRun(s[..i]) && IsSpaceRun(s[i + |core|..])
    ensures PadsWithSpace(s, core)
  {
  }

  lemma PadsWithSpaceElim(s: Bytes, core: Bytes) returns (i: nat)
    requires PadsWithSpace(s, core)
    ensures i <= |s| - |core| && s[i..i + |core|] == core && IsSpaceRun(s[..i]) && IsSpaceRun(s[i + |core|..])
  {
    i :| 0 <= i <= |s| - |core| && s[i..i + |core|] == core && IsSpaceRun(s[..i]) && IsSpaceRun(s[i + |core|..]);
  }

  /** `strings.TrimLeftFunc(s, unicode.IsSpace)`. */
  function TrimLeftSpace(s: Bytes): (r: Bytes)
    ensures |r| <= |s| && r == s[|s| - |r|..]
    ensures IsSpaceRun(s[..|s| - |r|])
    ensures LeadingSpaceLen(r) == 0
    decreases |s|
  {
    var k := LeadingSpaceLen(s);
    if k == 0 then
      s
    else
      var r := TrimLeftSpace(s[k..]);
      var n := |s| - |r|;
      LeadingSpaceOfPrefix(s, n);
      assert s[..n][k..] == s[k..][..|s[k..]| - |r|];
      r
  }

  /** `strings.TrimRightFunc(s, unicode.IsSpace)`. */
  function TrimRightSpace(s: Bytes): (r: Bytes)
    ensures |r| <= |s| && r == s[..|r|]
    ensures IsSpaceRun(s[|r|..])
    ensures TrailingSpaceLen(r) == 0
    decreases |s|
  {
    var k := TrailingSpaceLen(s);
    if k == 0 then
      s
    else
      var t := s[..|s| - k];
      var r := TrimRightSpace(t);
      TrimRightStep(s, k, t, r);
      r
  }

  lemma TrimRightStep(s: Bytes, k: nat, t: Bytes, r: Bytes)
    requires 0 < k <= |s| && IsSpaceRune(s[|s| - k..]) && t == s[..|s| - k]
    requires |r| <= |t| && r == t[..|r|] && IsSpaceRun(t[|r|..])
    ensures r == s[..|r|] && IsSpaceRun(s[|r|..])
  {
    SpaceRunAppend(t[|r|..], s[|s| - k..]);
    assert s[|r|..] == t[|r|..] + s[|s| - k..];
  }

  /**
   * `strings.TrimSpace`: drops the white-space runes at both ends. The result is a slice of
   * `s` that neither starts nor ends with white space, and what was cut off at either end
   * is white space only.
   */
  function TrimSpace(s: Bytes): (r: Bytes)
    ensures PadsWithSpace(s, r)
    ensures LeadingSpaceLen(r) == 0 && TrailingSpaceLen(r) == 0
  {
    TrimBothEnds(s, TrimLeftSpace(s), TrimRightSpace(TrimLeftSpace(s)));
    TrimRightSpace(TrimLeftSpace(s))
  }

  lemma TrimBothEnds(s: Bytes, t: Bytes, r: Bytes)
    requires |t| <= |s| && t == s[|s| - |t|..] && IsSpaceRun(s[..|s| - |t|]) && LeadingSpaceLen(t) == 0
    requires |r| <= |t| && r == t[..|r|] && IsSpaceRun(t[|r|..])
    ensures PadsWithSpace(s, r)
    ensures LeadingSpaceLen(r) == 0
  {
    var i := |s| - |t|;
    assert s[i..i + |r|] == r;
    assert s[i + |r|..] == t[|r|..];
    if LeadingSpaceLen(r) != 0 {
      LeadingSpaceOfPrefix(t, |r|);
    }
  }

  /** `unicode.ToLower` restricted to ASCII: upper-case letters move to lower case, every other byte stays. */
  function LowerByte(b: byte): byte {
    if 65 <= b <= 90 then b + 32 else b
  }

  /** `strings.ToLower`, for the ASCII letters. */
  function ToLower(s: Bytes): (r: Bytes)
    ensures |r| == |s|
  {
    seq(|s|, i requires 0 <= i < |s| => LowerByte(s[i]))
  }

  /** `strings.HasSuffix`. */
  predicate HasSuffix(s: Bytes, suffix: Bytes) {
    |suffix| <= |s| && s[|s| - |suffix|..] == suffix
  }

  // ---------------------------------------------------------------------------------------
  // White-space runes are prefix-free and suffix-free, which makes trimming well defined.

  /** Cutting `s` after its leading white-space rune does not change which rune it starts with. */
  lemma LeadingSpaceOfPrefix(s: Bytes, n: nat)
    requires LeadingSpaceLen(s) <= n <= |s|
    ensures LeadingSpaceLen(s[..n]) == LeadingSpaceLen(s)
  {
  }

  /** A white-space rune followed by anything is read back as that rune. */
  lemma LeadingSpaceOfRune(e: Bytes, y: Bytes)
    requires IsSpaceRune(e)
    ensures LeadingSpaceLen(e + y) == |e|
  {
    var s := e + y;
    assert s[0] == e[0];
    if |e| >= 2 { assert s[1] == e[1]; }
    if |e| >= 3 { assert s[2] == e[2]; }
  }

  /** Anything followed by a white-space rune is read back, from the right, as that rune. */
  lemma TrailingSpaceOfRune(x: Bytes, e: Bytes)
    requires IsSpaceRune(e)
    ensures TrailingSpaceLen(x + e) == |e|
  {
    var s := x + e;
    var n := |s|;
    assert s[n - 1] == e[|e| - 1];
    if |e| >= 2 { assert s[n - 2] == e[|e| - 2]; }
    if |e| >= 3 { assert s[n - 3] == e[|e| - 3]; }
  }

  /** A white-space rune in front of a run of white space gives a longer run. */
  lemma SpaceRunCons(e: Bytes, rest: Bytes)
    requires IsSpaceRune(e) && IsSpaceRun(rest)
    ensures IsSpaceRun(e + rest)
  {
    LeadingSpaceOfRune(e, rest);
    assert (e + rest)[|e|..] == rest;
  }

  /** A run of white space followed by one more white-space rune is still a run. */
  lemma {:induction false} SpaceRunAppend(x: Bytes, e: Bytes)
    requires IsSpaceRun(x) && IsSpaceRune(e)
    ensures IsSpaceRun(x + e)
    decreases |x|
  {
    if x == [] {
      SpaceRunCons(e, []);
      assert e + [] == x + e;
    } else {
      SpaceRunAppendStep(x, e);
    }
  }

  lemma {:induction false} SpaceRunAppendStep(x: Bytes, e: Bytes)
    requires IsSpaceRun(x) && IsSpaceRune(e) && x != []
    ensures IsSpaceRun(x + e)
    decreases |x|, 0
  {
    var k := LeadingSpaceLen(x);
    var head, tail := x[..k], x[k..];
    assert x == head + tail;
    SpaceRunAppend(tail, e);
    SpaceRunCons(head, tail + e);
    assert head + (tail + e) == x + e;
  }

  /** Left-trimming skips a leading run of white space entirely. */
  lemma {:induction false} TrimLeftSkipsRun(lead: Bytes, rest: Bytes)
    requires IsSpaceRun(lead)
    ensures TrimLeftSpace(lead + rest) == TrimLeftSpace(rest)
    decreases |lead|
  {
    if lead != [] {
      var k := LeadingSpaceLen(lead);
      LeadingSpaceOfRune(lead[..k], lead[k..] + rest);
      assert lead[..k] + (lead[k..] + rest) == lead + rest;
      assert (lead + rest)[k..] == lead[k..] + rest;
      TrimLeftSkipsRun(lead[k..], rest);
    } else {
      assert lead + rest == rest;
    }
  }

  /** Right-trimming skips a trailing run of white space entirely. */
  lemma {:induction false} TrimRightSkipsRun(x: Bytes, trail: Bytes)
    requires IsSpaceRun(trail)
    ensures TrimRightSpace(x + trail) == TrimRightSpace(x)
    decreases |trail|
  {
    if trail == [] {
      assert x + trail == x;
    } else {
      var k := LeadingSpaceLen(trail);
      var e := trail[..k];
      assert x + trail == (x + e) + trail[k..];
      TrimRightSkipsRun(x + e, trail[k..]);
      TrailingSpaceOfRune(x, e);
      assert (x + e)[..|x + e| - |e|] == x;
    }
  }

  /** A run of white space holds no lower-case ASCII letter. */
  lemma {:induction false} SpaceRunHasNoLetters(s: Bytes, i: nat)
    requires IsSpaceRun(s) && i < |s|
    ensures !(97 <= s[i] <= 122) && !(65 <= s[i] <= 90)
    decreases |s|
  {
    var k := LeadingSpaceLen(s);
    if i >= k {
      SpaceRunHasNoLetters(s[k..], i - k);
    } else {
      assert s[..k][i] == s[i];
    }
  }

  /** Lower-casing leaves a run of white space as it is. */
  lemma SpaceRunIsLowerCase(s: Bytes)
    requires IsSpaceRun(s)
    ensures ToLower(s) == s
  {
    forall i | 0 <= i < |s|
      ensures ToLower(s)[i] == s[i]
    {
      SpaceRunHasNoLetters(s, i);
    }
  }

  /** If lower-casing yields a run of white space, the bytes were that run already. */
  lemma LowerSpaceRunWasSpaceRun(s: Bytes)
    requires IsSpaceRun(ToLower(s))
    ensures ToLower(s) == s
  {
    forall i | 0 <= i < |s|
      ensures ToLower(s)[i] == s[i]
    {
      SpaceRunHasNoLetters(ToLower(s), i);
    }
  }

  lemma ToLowerAppend(a: Bytes, b: Bytes)
    ensures ToLower(a + b) == ToLower(a) + ToLower(b)
  {
  }

  lemma ToLowerSlice(s: Bytes, i: nat, j: nat)
    requires i <= j <= |s|
    ensures ToLower(s)[i..j] == ToLower(s[i..j])
  {
  }
}
