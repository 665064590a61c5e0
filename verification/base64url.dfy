/**
 * Base64url without padding, as produced by Node's `buf.toString('base64url')`
 * (the alphabet of section 5 of RFC 4648) and read back by
 * `Buffer.from(s, 'base64url')`.
 *
 * Encoding writes three bytes as four sextets and a final one or two bytes as
 * two or three sextets, with no `=` padding. Decoding is total and lenient the
 * way Node's decoder is on Latin-1 text (characters below U+0100): characters
 * outside the alphabet are skipped, `+` and `/` are accepted as the
 * standard-alphabet spellings of 62 and 63, the first `=` ends the input, and a
 * final lone sextet carries no whole byte and is dropped. Node reads a wider
 * character by its low byte; here every character outside the alphabet is skipped.
 */
module Base64Url {
  import opened Wrappers

  /** A six-bit digit. */
  type sextet = d: int | 0 <= d < 64

  /** The url-safe alphabet: `A-Z a-z 0-9 - _`. */
  predicate IsUrlSafeChar(c: char)
  {
    ('A' <= c <= 'Z') || ('a' <= c <= 'z') || ('0' <= c <= '9') || c == '-' || c == '_'
  }

  /** The character that spells digit `d` in the url-safe alphabet. */
  function CharOf(d: sextet): (c: char)
    ensures IsUrlSafeChar(c)
  {
    if d < 26 then ('A' as int + d) as char
    else if d < 52 then ('a' as int + (d - 26)) as char
    else if d < 62 then ('0' as int + (d - 52)) as char
    else if d == 62 then '-'
    else '_'
  }

  /** The digit a character stands for when decoding, if it stands for one. */
  function DigitOf(c: char): (r: Option<sextet>)
    ensures IsUrlSafeChar(c) ==> r.Some?
  {
    if 'A' <= c <= 'Z' then Some(c as int - 'A' as int)
    else if 'a' <= c <= 'z' then Some(c as int - 'a' as int + 26)
    else if '0' <= c <= '9' then Some(c as int - '0' as int + 52)
    else if c == '-' || c == '+' then Some(62)
    else if c == '_' || c == '/' then Some(63)
    else None
  }

  lemma DigitOfCharOf(d: sextet)
    ensures DigitOf(CharOf(d)) == Some(d)
  {
  }

  /** The sextets of a byte sequence, most significant bits first, unpadded. */
  function Sextets(b: seq<byte>): seq<sextet>
    decreases |b|
  {
    if |b| == 0 then []
    else if |b| == 1 then [b[0] / 4, (b[0] % 4) * 16]
    else if |b| == 2 then [b[0] / 4, (b[0] % 4) * 16 + b[1] / 16, (b[1] % 16) * 4]
    else [b[0] / 4, (b[0] % 4) * 16 + b[1] / 16, (b[1] % 16) * 4 + b[2] / 64, b[2] % 64]
         + Sextets(b[3..])
  }

  /** The bytes spelled by a sequence of sextets; a trailing lone sextet is dropped. */
  function BytesOf(d: seq<sextet>): seq<byte>
    decreases |d|
  {
    if |d| < 2 then []
    else if |d| == 2 then [(d[0] as int) * 4 + d[1] / 16]
    else if |d| == 3 then [(d[0] as int) * 4 + d[1] / 16, (d[1] as int % 16) * 16 + d[2] / 4]
    else [(d[0] as int) * 4 + d[1] / 16, (d[1] as int % 16) * 16 + d[2] / 4, (d[2] as int % 4) * 64 + d[3]]
         + BytesOf(d[4..])
  }

  function Spell(d: seq<sextet>): (s: string)
    ensures |s| == |d|
  {
    seq(|d|, i requires 0 <= i < |d| => CharOf(d[i]))
  }

  /** The digits a string carries, skipping characters outside the alphabet and stopping at `=`. */
  function DigitsOf(s: string): seq<sextet>
    decreases |s|
  {
    if |s| == 0 || s[0] == '=' then []
    else match DigitOf(s[0])
      case Some(d) => [d] + DigitsOf(s[1..])
      case None => DigitsOf(s[1..])
  }

  /** `buf.toString('base64url')`. */
  function Encode(b: seq<byte>): (s: string)
    ensures forall i :: 0 <= i < |s| ==> IsUrlSafeChar(s[i])
    ensures '=' !in s
  {
    Spell(Sextets(b))
  }

  lemma {:induction false} SextetsLength(b: seq<byte>)
    ensures |Sextets(b)| == (4 * |b| + 2) / 3
    decreases |b|
  {
    if |b| >= 3 {
      SextetsLength(b[3..]);
    }
  }

  /** Sextets of bytes cut at a group boundary are the two parts' sextets, joined. */
  lemma {:induction false} SextetsAppend(x: seq<byte>, y: seq<byte>)
    requires |x| % 3 == 0
    ensures Sextets(x + y) == Sextets(x) + Sextets(y)
    decreases |x|
  {
    if |x| == 0 {
      assert x + y == y;
    } else {
      var xy := x + y;
      assert xy[0] == x[0] && xy[1] == x[1] && xy[2] == x[2];
      assert xy[3..] == x[3..] + y;
      SextetsAppend(x[3..], y);
    }
  }

  /** Encoding works group by group: bytes cut at a multiple of three encode to the two encodings, joined. */
  lemma EncodeAppend(x: seq<byte>, y: seq<byte>)
    requires |x| % 3 == 0
    ensures Encode(x + y) == Encode(x) + Encode(y)
  {
    SextetsAppend(x, y);
    assert Spell(Sextets(x) + Sextets(y)) == Spell(Sextets(x)) + Spell(Sextets(y));
  }

  /** Three bytes take four characters; a final one or two bytes take two or three, unpadded. */
  lemma EncodeLength(b: seq<byte>)
    ensures |Encode(b)| == (4 * |b| + 2) / 3
  {
    SextetsLength(b);
  }

  /** `Buffer.from(s, 'base64url')`: total, never fails. */
  function Decode(s: string): seq<byte>
  {
    BytesOf(DigitsOf(s))
  }

  lemma {:induction false} DigitsOfSpell(d: seq<sextet>)
    ensures DigitsOf(Spell(d)) == d
    decreases |d|
  {
    if |d| > 0 {
      DigitOfCharOf(d[0]);
      assert Spell(d)[0] == CharOf(d[0]);
      assert Spell(d)[1..] == Spell(d[1..]);
      DigitsOfSpell(d[1..]);
    }
  }

  lemma OneByte(x: byte)
    ensures BytesOf([x / 4, (x % 4) * 16]) == [x]
  {
  }

  lemma TwoBytes(x: byte, y: byte)
    ensures BytesOf([x / 4, (x % 4) * 16 + y / 16, (y % 16) * 4]) == [x, y]
  {
  }

  lemma ThreeBytes(x: byte, y: byte, z: byte)
    ensures var d: seq<sextet> := [x / 4, (x % 4) * 16 + y / 16, (y % 16) * 4 + z / 64, z % 64];
            (d[0] as int) * 4 + d[1] / 16 == x && (d[1] as int % 16) * 16 + d[2] / 4 == y && (d[2] as int % 4) * 64 + d[3] == z
  {
  }

  lemma {:induction false} BytesOfSextets(b: seq<byte>)
    ensures BytesOf(Sextets(b)) == b
    decreases |b|
  {
    if |b| == 1 {
      OneByte(b[0]);
    } else if |b| == 2 {
      TwoBytes(b[0], b[1]);
    } else if |b| >= 3 {
      var head: seq<sextet> := [b[0] / 4, (b[0] % 4) * 16 + b[1] / 16, (b[1] % 16) * 4 + b[2] / 64, b[2] % 64];
      var d := head + Sextets(b[3..]);
      assert Sextets(b) == d;
      assert d[4..] == Sextets(b[3..]);
      ThreeBytes(b[0], b[1], b[2]);
      assert BytesOf(d) == [b[0], b[1], b[2]] + BytesOf(d[4..]);
      BytesOfSextets(b[3..]);
      assert b == [b[0], b[1], b[2]] + b[3..];
    }
  }

  /** Decoding an encoding gives back the bytes. */
  lemma {:induction false} DecodeEncode(b: seq<byte>)
    ensures Decode(Encode(b)) == b
  {
    DigitsOfSpell(Sextets(b));
    BytesOfSextets(b);
  }
}
