/**
 * UTF-8, the character encoding Node uses for `Buffer.from(string)` and
 * `buf.toString()`, and that the URL Standard uses for form payloads.
 *
 * Encoding writes a character as one to four bytes. Decoding follows the UTF-8
 * decoder of the WHATWG Encoding Standard: every maximal ill-formed subsequence
 * becomes one U+FFFD, so decoding is total.
 */
module Utf8 {
  import opened Wrappers

  /** U+FFFD REPLACEMENT CHARACTER. */
  const Replacement: char := '\U{FFFD}'

  predicate IsAscii(s: string)
  {
    forall i :: 0 <= i < |s| ==> s[i] as int < 0x80
  }

  /** The bytes of one character, shortest form. */
  function EncodeChar(c: char): (r: seq<byte>)
    ensures 1 <= |r| <= 4
    ensures |r| == 1 <==> c as int < 0x80
    ensures |r| == 1 ==> r[0] == c as int
  {
    var n := c as int;
    if n < 0x80 then [n]
    else if n < 0x800 then [0xC0 + n / 64, 0x80 + n % 64]
    else if n < 0x10000 then [0xE0 + n / 4096, 0x80 + (n / 64) % 64, 0x80 + n % 64]
    else [0xF0 + n / 262144, 0x80 + (n / 4096) % 64, 0x80 + (n / 64) % 64, 0x80 + n % 64]
  }

  /** `Buffer.from(s)`: the UTF-8 bytes of a string. */
  function Encode(s: string): (r: seq<byte>)
    ensures |r| >= |s|
    decreases |s|
  {
    if |s| == 0 then [] else EncodeChar(s[0]) + Encode(s[1..])
  }

  predicate IsContinuation(b: byte)
  {
    0x80 <= b <= 0xBF
  }

  /**
   * One step of the decoder: the character read from the front of `b` and the
   * number of bytes it consumed. A lead byte whose continuation is missing or
   * out of range yields U+FFFD after consuming only the bytes that were valid
   * so far; the offending byte is read again as the start of the next step.
   */
  function Step(b: seq<byte>): (r: (char, nat))
    requires |b| > 0
    ensures 1 <= r.1 <= |b|
  {
    var b0: int := b[0];
    var b1: int := if |b| > 1 then b[1] else 0;
    var b2: int := if |b| > 2 then b[2] else 0;
    var b3: int := if |b| > 3 then b[3] else 0;
    if b0 < 0x80 then (b0 as char, 1)
    else if 0xC2 <= b0 <= 0xDF then
      if |b| > 1 && IsContinuation(b[1]) then (((b0 - 0xC0) * 64 + (b1 - 0x80)) as char, 2)
      else (Replacement, 1)
    else if 0xE0 <= b0 <= 0xEF then
      var lower := if b0 == 0xE0 then 0xA0 else 0x80;
      var upper := if b0 == 0xED then 0x9F else 0xBF;
      if |b| > 1 && lower <= b1 <= upper then
        if |b| > 2 && IsContinuation(b[2]) then
          (((b0 - 0xE0) * 4096 + (b1 - 0x80) * 64 + (b2 - 0x80)) as char, 3)
        else (Replacement, 2)
      else (Replacement, 1)
    else if 0xF0 <= b0 <= 0xF4 then
      var lower := if b0 == 0xF0 then 0x90 else 0x80;
      var upper := if b0 == 0xF4 then 0x8F else 0xBF;
      if |b| > 1 && lower <= b1 <= upper then
        if |b| > 2 && IsContinuation(b[2]) then
          if |b| > 3 && IsContinuation(b[3]) then
            (((b0 - 0xF0) * 262144 + (b1 - 0x80) * 4096 + (b2 - 0x80) * 64 + (b3 - 0x80)) as char, 4)
          else (Replacement, 3)
        else (Replacement, 2)
      else (Replacement, 1)
    else (Replacement, 1)
  }

  /** `buf.toString()`: total UTF-8 decoding with replacement. */
  function Decode(b: seq<byte>): (s: string)
    ensures |s| <= |b|
    decreases |b|
  {
    if |b| == 0 then "" else
      var (c, k) := Step(b);
      [c] + Decode(b[k..])
  }

  lemma {:induction false} EncodeAppend(s: string, t: string)
    ensures Encode(s + t) == Encode(s) + Encode(t)
    decreases |s|
  {
    if |s| == 0 {
      assert s + t == t;
    } else {
      assert (s + t)[0] == s[0];
      assert (s + t)[1..] == s[1..] + t;
      EncodeAppend(s[1..], t);
      calc {
        Encode(s + t);
        EncodeChar(s[0]) + Encode(s[1..] + t);
        EncodeChar(s[0]) + (Encode(s[1..]) + Encode(t));
        (EncodeChar(s[0]) + Encode(s[1..])) + Encode(t);
      }
    }
  }

  /** An ASCII string is its own byte sequence. */
  lemma {:induction false} EncodeAscii(s: string)
    requires IsAscii(s)
    ensures |Encode(s)| == |s|
    ensures forall i :: 0 <= i < |s| ==> Encode(s)[i] == s[i] as int
    decreases |s|
  {
    if |s| > 0 {
      EncodeAscii(s[1..]);
    }
  }

  lemma StepTwo(n: int, rest: seq<byte>)
    requires 0x80 <= n < 0x800
    ensures Step([0xC0 + n / 64, 0x80 + n % 64] + rest) == (n as char, 2)
  {
    var b := [0xC0 + n / 64, 0x80 + n % 64] + rest;
    assert b[0] == 0xC0 + n / 64 && b[1] == 0x80 + n % 64;
  }

  lemma StepThree(n: int, rest: seq<byte>)
    requires 0x800 <= n < 0x10000 && (n < 0xD800 || 0xE000 <= n)
    ensures Step([0xE0 + n / 4096, 0x80 + (n / 64) % 64, 0x80 + n % 64] + rest) == (n as char, 3)
  {
    var b := [0xE0 + n / 4096, 0x80 + (n / 64) % 64, 0x80 + n % 64] + rest;
    var hi, mid, lo := n / 4096, (n / 64) % 64, n % 64;
    assert b[0] == 0xE0 + hi && b[1] == 0x80 + mid && b[2] == 0x80 + lo;
    assert n == hi * 4096 + mid * 64 + lo;
    assert hi == 0 ==> mid >= 0x20;
    assert hi == 0xD ==> mid < 0x20;
  }

  lemma StepFourDigits(top: int, hi: int, mid: int, lo: int, rest: seq<byte>)
    requires 0 <= top <= 4 && 0 <= hi < 64 && 0 <= mid < 64 && 0 <= lo < 64
    requires top == 0 ==> hi >= 0x10
    requires top == 4 ==> hi < 0x10
    ensures 0x10000 <= top * 262144 + hi * 4096 + mid * 64 + lo < 0x110000
    ensures Step([0xF0 + top, 0x80 + hi, 0x80 + mid, 0x80 + lo] + rest)
            == ((top * 262144 + hi * 4096 + mid * 64 + lo) as char, 4)
  {
    var b := [0xF0 + top, 0x80 + hi, 0x80 + mid, 0x80 + lo] + rest;
    assert b[0] == 0xF0 + top && b[1] == 0x80 + hi && b[2] == 0x80 + mid && b[3] == 0x80 + lo;
  }

  lemma StepFour(n: int, rest: seq<byte>)
    requires 0x10000 <= n < 0x110000
    ensures Step([0xF0 + n / 262144, 0x80 + (n / 4096) % 64, 0x80 + (n / 64) % 64, 0x80 + n % 64] + rest)
            == (n as char, 4)
  {
    var top, hi, mid, lo := n / 262144, (n / 4096) % 64, (n / 64) % 64, n % 64;
    assert n / 64 == (n / 4096) * 64 + mid;
    assert n / 4096 == top * 64 + hi;
    assert n == top * 262144 + hi * 4096 + mid * 64 + lo;
    StepFourDigits(top, hi, mid, lo, rest);
  }

  /** Reading the bytes of one character gives back that character. */
  lemma StepEncodeChar(c: char, rest: seq<byte>)
    ensures Step(EncodeChar(c) + rest) == (c, |EncodeChar(c)|)
  {
    var n := c as int;
    if n < 0x80 {
    } else if n < 0x800 {
      StepTwo(n, rest);
    } else if n < 0x10000 {
      StepThree(n, rest);
    } else {
      StepFour(n, rest);
    }
  }

  /** Decoding the UTF-8 encoding of a string gives back the string. */
  lemma {:induction false} DecodeEncode(s: string)
    ensures Decode(Encode(s)) == s
    decreases |s|
  {
    if |s| > 0 {
      var e := EncodeChar(s[0]);
      StepEncodeChar(s[0], Encode(s[1..]));
      assert (e + Encode(s[1..]))[|e|..] == Encode(s[1..]);
      DecodeEncode(s[1..]);
    }
  }
}
