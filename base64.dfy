/**
 * `base64.StdEncoding` (section 4 of RFC 4648: alphabet A-Z a-z 0-9 + /, padding '='),
 * as Go's `EncodeToString` and `DecodeString` implement it: the decoder skips '\r' and
 * '\n' anywhere, demands padding, and ignores the unused low bits of the last group.
 */
module Base64 {
  import opened Wrappers
  import opened GoStrings

  type Sextet = v: int | 0 <= v < 64

  /** '=' */
  const Pad: byte := 61

  /** The character of the standard alphabet for `v`. */
  function Digit(v: Sextet): byte {
    if v < 26 then 65 + v
    else if v < 52 then 97 + (v - 26)
    else if v < 62 then 48 + (v - 52)
    else if v == 62 then 43
    else 47
  }

  /** The value a character stands for, None for a character outside the alphabet (`decodeMap` 0xFF). */
  function Value(c: byte): (r: Option<Sextet>)
    ensures r.Some? ==> Digit(r.value) == c
  {
    if 65 <= c <= 90 then Some(c - 65)
    else if 97 <= c <= 122 then Some(c - 71)
    else if 48 <= c <= 57 then Some(c + 4)
    else if c == 43 then Some(62)
    else if c == 47 then Some(63)
    else None
  }

  /** Every character of the alphabet is read back as the value it was written for. */
  lemma ValueOfDigit(v: Sextet)
    ensures Value(Digit(v)) == Some(v)
  {
  }

  /** `c` may appear in an encoding: an alphabet character or the padding. */
  predicate IsEncodingChar(c: byte) {
    c == Pad || Value(c).Some?
  }

  /** Three bytes as four characters. */
  function EncodeGroup(b0: byte, b1: byte, b2: byte): (r: Bytes) {
    [Digit(b0 / 4), Digit((b0 % 4) * 16 + b1 / 16), Digit((b1 % 16) * 4 + b2 / 64), Digit(b2 % 64)]
  }

  /** `base64.StdEncoding.EncodeToString`: groups of three bytes from the left, a padded tail. */
  function EncodeToString(b: Bytes): (s: Bytes)
    ensures |s| == 4 * ((|b| + 2) / 3)
    ensures forall k :: 0 <= k < |s| ==> IsEncodingChar(s[k])
    decreases |b|
  {
    if |b| == 0 then []
    else if |b| == 1 then [Digit(b[0] / 4), Digit((b[0] % 4) * 16), Pad, Pad]
    else if |b| == 2 then [Digit(b[0] / 4), Digit((b[0] % 4) * 16 + b[1] / 16), Digit((b[1] % 16) * 4), Pad]
    else
      var g := EncodeGroup(b[0], b[1], b[2]);
      ValueOfDigit(b[0] / 4);
      ValueOfDigit((b[0] % 4) * 16 + b[1] / 16);
      ValueOfDigit((b[1] % 16) * 4 + b[2] / 64);
      ValueOfDigit(b[2] % 64);
      g + EncodeToString(b[3..])
  }

  /** The input with every '\r' and '\n' removed: the decoder skips them wherever they stand. */
  function StripNewlines(s: Bytes): (r: Bytes)
    ensures |r| <= |s|
    ensures forall k :: 0 <= k < |r| ==> r[k] != 10 && r[k] != 13
  {
    if s == [] then []
    else if s[0] == 10 || s[0] == 13 then StripNewlines(s[1..])
    else [s[0]] + StripNewlines(s[1..])
  }

  /** `base64.StdEncoding.DecodeString`; None stands for the `CorruptInputError` it returns. */
  function DecodeString(s: Bytes): (r: Option<Bytes>) {
    DecodeQuanta(StripNewlines(s))
  }

  /**
   * Decodes groups of four characters. Padding may only close the last group, as "xx==" or
   * "xxx="; a group cut short, a '=' anywhere else, or anything after the padding is an error.
   */
  function DecodeQuanta(t: Bytes): (r: Option<Bytes>)
    decreases |t|
  {
    if |t| == 0 then Some([])
    else if |t| < 4 then None
    else
      var v0, v1, v2, v3 := Value(t[0]), Value(t[1]), Value(t[2]), Value(t[3]);
      if v0.None? || v1.None? then None
      else if t[2] == Pad then
        if t[3] == Pad && |t| == 4 then Some([v0.value * 4 + v1.value / 16]) else None
      else if v2.None? then None
      else if t[3] == Pad then
        if |t| == 4 then Some([v0.value * 4 + v1.value / 16, (v1.value % 16) * 16 + v2.value / 4]) else None
      else if v3.None? then None
      else
        match DecodeQuanta(t[4..])
        case None => None
        case Some(rest) =>
          Some([v0.value * 4 + v1.value / 16, (v1.value % 16) * 16 + v2.value / 4, (v2.value % 4) * 64 + v3.value] + rest)
  }

  /** Round trip: decoding what the encoder wrote gives back the bytes. */
  lemma {:induction false} DecodeEncode(b: Bytes)
    ensures DecodeString(EncodeToString(b)) == Some(b)
  {
    var s := EncodeToString(b);
    NoNewlines(s);
    QuantaRoundTrip(b);
  }

  lemma {:induction false} QuantaRoundTrip(b: Bytes)
    ensures DecodeQuanta(EncodeToString(b)) == Some(b)
    decreases |b|
  {
    if |b| == 0 {
    } else if |b| == 1 {
      assert EncodeToString(b) == [Digit(b[0] / 4), Digit((b[0] % 4) * 16), Pad, Pad];
      OneByteTail(b[0]);
      assert [b[0]] == b;
    } else if |b| == 2 {
      assert EncodeToString(b) == [Digit(b[0] / 4), Digit((b[0] % 4) * 16 + b[1] / 16), Digit((b[1] % 16) * 4), Pad];
      TwoByteTail(b[0], b[1]);
      assert [b[0], b[1]] == b;
    } else {
      assert EncodeToString(b) == EncodeGroup(b[0], b[1], b[2]) + EncodeToString(b[3..]);
      QuantaRoundTrip(b[3..]);
      GroupStep(b[0], b[1], b[2], EncodeToString(b[3..]), b[3..]);
      assert b == [b[0], b[1], b[2]] + b[3..];
    }
  }

  lemma OneByteTail(b0: byte)
    ensures DecodeQuanta([Digit(b0 / 4), Digit((b0 % 4) * 16), Pad, Pad]) == Some([b0])
  {
    ValueOfDigit(b0 / 4);
    ValueOfDigit((b0 % 4) * 16);
    assert ((b0 % 4) * 16) / 16 == b0 % 4;
  }

  lemma TwoByteTail(b0: byte, b1: byte)
    ensures DecodeQuanta([Digit(b0 / 4), Digit((b0 % 4) * 16 + b1 / 16), Digit((b1 % 16) * 4), Pad]) == Some([b0, b1])
  {
    ValueOfDigit(b0 / 4);
    ValueOfDigit((b0 % 4) * 16 + b1 / 16);
    ValueOfDigit((b1 % 16) * 4);
    assert ((b0 % 4) * 16 + b1 / 16) / 16 == b0 % 4;
    assert ((b0 % 4) * 16 + b1 / 16) % 16 == b1 / 16;
    assert ((b1 % 16) * 4) / 4 == b1 % 16;
  }

  /** A full group in front of an encoding decodes to its three bytes in front of the rest. */
  lemma GroupStep(b0: byte, b1: byte, b2: byte, t: Bytes, rest: Bytes)
    requires DecodeQuanta(t) == Some(rest)
    ensures DecodeQuanta(EncodeGroup(b0, b1, b2) + t) == Some([b0, b1, b2] + rest)
  {
    var u := EncodeGroup(b0, b1, b2) + t;
    assert u[4..] == t;
    GroupRoundTrip(b0, b1, b2);
  }

  /** The four characters of a full group decode to its three bytes. */
  lemma GroupRoundTrip(b0: byte, b1: byte, b2: byte)
    ensures var g := EncodeGroup(b0, b1, b2);
      && Value(g[0]) == Some(b0 / 4)
      && Value(g[1]) == Some((b0 % 4) * 16 + b1 / 16)
      && Value(g[2]) == Some((b1 % 16) * 4 + b2 / 64)
      && Value(g[3]) == Some(b2 % 64)
      && g[2] != Pad && g[3] != Pad
      && (b0 / 4) * 4 + ((b0 % 4) * 16 + b1 / 16) / 16 == b0
      && (((b0 % 4) * 16 + b1 / 16) % 16) * 16 + ((b1 % 16) * 4 + b2 / 64) / 4 == b1
      && (((b1 % 16) * 4 + b2 / 64) % 4) * 64 + b2 % 64 == b2
  {
    ValueOfDigit(b0 / 4);
    ValueOfDigit((b0 % 4) * 16 + b1 / 16);
    ValueOfDigit((b1 % 16) * 4 + b2 / 64);
    ValueOfDigit(b2 % 64);
  }

  /** Removing newlines from text that has none changes nothing. */
  lemma {:induction false} NoNewlines(s: Bytes)
    requires forall k :: 0 <= k < |s| ==> IsEncodingChar(s[k])
    ensures StripNewlines(s) == s
  {
    if s != [] {
      assert IsEncodingChar(s[0]);
      NoNewlines(s[1..]);
      assert s == [s[0]] + s[1..];
    }
  }
}
