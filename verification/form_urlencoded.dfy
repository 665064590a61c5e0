/**
 * The `application/x-www-form-urlencoded` format of the WHATWG URL Standard
 * (section 5), which is what `URLSearchParams` reads and writes.
 *
 * The serializer percent-encodes the UTF-8 bytes of every name and value,
 * writing a space as `+` and leaving only ASCII alphanumerics and `*-._`
 * as they are, and joins the `name=value` pairs with `&`. The parser removes
 * one leading `?` (as the `URLSearchParams` constructor does for a string),
 * splits the bytes on `&`, skips empty pieces, splits each piece at its first
 * `=` (a piece without one is a name with an empty value), turns `+` into a
 * space, percent-decodes and decodes the result as UTF-8.
 *
 * This is the standard's parser. Node's own decoding of a component that mixes
 * raw non-ASCII text with a malformed escape differs (it falls back to the low
 * byte of each code unit); the serializer's output is ASCII and never meets it.
 */
module FormUrlEncoded {
  import opened Wrappers
  import Utf8

  /** One entry of a `URLSearchParams` list: a name and a value. */
  type Pair = (string, string)

  const Amp: byte := 0x26
  const Equals: byte := 0x3D
  const Plus: byte := 0x2B
  const Space: byte := 0x20
  const Percent: byte := 0x25
  const Question: byte := 0x3F

  /** Bytes the serializer writes as themselves: ASCII alphanumerics and `*-._`. */
  predicate IsUnreserved(b: byte)
  {
    (0x30 <= b <= 0x39) || (0x41 <= b <= 0x5A) || (0x61 <= b <= 0x7A)
    || b == 0x2A || b == 0x2D || b == 0x2E || b == 0x5F
  }

  /** The serialized form of one byte. */
  function EncodeByte(b: byte): (r: seq<byte>)
  {
    if b == Space then [Plus]
    else if IsUnreserved(b) then [b]
    else [Percent, DigitCode(b / 16, true), DigitCode(b % 16, true)]
  }

  /** Bytes that may appear in the serialized form of a name or value. */
  predicate IsEncodedByte(b: byte)
  {
    IsUnreserved(b) || b == Plus || b == Percent
  }

  function EncodeBytes(bs: seq<byte>): (r: seq<byte>)
    ensures forall i :: 0 <= i < |r| ==> IsEncodedByte(r[i])
    ensures |r| >= |bs|
    decreases |bs|
  {
    if |bs| == 0 then [] else EncodeByte(bs[0]) + EncodeBytes(bs[1..])
  }

  /** The serialized form of a name or a value. */
  function EncodeComponent(s: string): seq<byte>
  {
    EncodeBytes(Utf8.Encode(s))
  }

  function SerializePairBytes(p: Pair): seq<byte>
  {
    EncodeComponent(p.0) + [Equals] + EncodeComponent(p.1)
  }

  function SerializeBytes(ps: seq<Pair>): seq<byte>
    decreases |ps|
  {
    if |ps| == 0 then []
    else if |ps| == 1 then SerializePairBytes(ps[0])
    else SerializePairBytes(ps[0]) + [Amp] + SerializeBytes(ps[1..])
  }

  /** The characters of a sequence of ASCII bytes. */
  function AsciiText(bs: seq<byte>): (s: string)
    requires forall i :: 0 <= i < |bs| ==> bs[i] < 0x80
    ensures |s| == |bs|
    ensures forall i :: 0 <= i < |s| ==> s[i] as int == bs[i]
  {
    seq(|bs|, i requires 0 <= i < |bs| => bs[i] as char)
  }

  /** `URLSearchParams.prototype.toString()`. */
  function Serialize(ps: seq<Pair>): (s: string)
    ensures Utf8.IsAscii(s)
  {
    SerializeBytesAscii(ps);
    AsciiText(SerializeBytes(ps))
  }

  /** The position of the first `x` in `bs`, or `|bs|` when there is none. */
  function IndexOf(bs: seq<byte>, x: byte): (i: nat)
    ensures i <= |bs|
    ensures i < |bs| ==> bs[i] == x
    ensures forall j :: 0 <= j < i ==> bs[j] != x
    decreases |bs|
  {
    if |bs| == 0 then 0 else if bs[0] == x then 0 else 1 + IndexOf(bs[1..], x)
  }

  function PlusToSpace(bs: seq<byte>): (r: seq<byte>)
    ensures |r| == |bs|
  {
    seq(|bs|, i requires 0 <= i < |bs| => if bs[i] == Plus then Space else bs[i])
  }

  /** Percent-decoding: `%` and two hexadecimal digits become one byte; a `%` without them stays. */
  function PercentDecode(bs: seq<byte>): (r: seq<byte>)
    ensures |r| <= |bs|
    decreases |bs|
  {
    if |bs| == 0 then []
    else if bs[0] == Percent && |bs| >= 3 && DigitValue(bs[1]).Some? && DigitValue(bs[2]).Some? then
      [DigitValue(bs[1]).value * 16 + DigitValue(bs[2]).value] + PercentDecode(bs[3..])
    else [bs[0]] + PercentDecode(bs[1..])
  }

  function DecodeComponent(bs: seq<byte>): string
  {
    Utf8.Decode(PercentDecode(PlusToSpace(bs)))
  }

  /** One non-empty `&`-separated piece, split at its first `=`. */
  function ParsePiece(piece: seq<byte>): Pair
  {
    var i := IndexOf(piece, Equals);
    var name := piece[..i];
    var value := if i < |piece| then piece[i + 1..] else [];
    (DecodeComponent(name), DecodeComponent(value))
  }

  function ParseBytes(bs: seq<byte>): seq<Pair>
    decreases |bs|
  {
    if |bs| == 0 then []
    else
      var i := IndexOf(bs, Amp);
      var here := if i == 0 then [] else [ParsePiece(bs[..i])];
      here + (if i < |bs| then ParseBytes(bs[i + 1..]) else [])
  }

  /** `new URLSearchParams(s)`: the list of name-value pairs of a string, in order. */
  function Parse(s: string): seq<Pair>
  {
    ParseBytes(Utf8.Encode(if |s| > 0 && s[0] == '?' then s[1..] else s))
  }

  /** `URLSearchParams.prototype.get(name)`: the value of the first pair with that name. */
  function Get(ps: seq<Pair>, name: string): (r: Option<string>)
    ensures r.None? <==> forall i :: 0 <= i < |ps| ==> ps[i].0 != name
    ensures r.Some? ==> exists i :: 0 <= i < |ps| && ps[i] == (name, r.value)
                                 && forall j :: 0 <= j < i ==> ps[j].0 != name
    decreases |ps|
  {
    if |ps| == 0 then None
    else if ps[0].0 == name then Some(ps[0].1)
    else
      var r := Get(ps[1..], name);
      assert forall i :: 1 <= i < |ps| ==> ps[i] == ps[1..][i - 1];
      if r.Some? then
        ghost var i :| 0 <= i < |ps[1..]| && ps[1..][i] == (name, r.value)
                       && forall j :: 0 <= j < i ==> ps[1..][j].0 != name;
        assert ps[i + 1] == (name, r.value);
        r
      else r
  }

  // ---- lemmas ----

  /** The first occurrence is where `IndexOf` stops. */
  lemma {:induction false} IndexOfFirst(bs: seq<byte>, x: byte, k: nat)
    requires k < |bs| && bs[k] == x
    requires forall j :: 0 <= j < k ==> bs[j] != x
    ensures IndexOf(bs, x) == k
    decreases k
  {
    if k > 0 {
      IndexOfFirst(bs[1..], x, k - 1);
    }
  }

  lemma {:induction false} EncodeBytesAppend(x: seq<byte>, y: seq<byte>)
    ensures EncodeBytes(x + y) == EncodeBytes(x) + EncodeBytes(y)
    decreases |x|
  {
    if |x| == 0 {
      assert x + y == y;
    } else {
      assert (x + y)[0] == x[0];
      assert (x + y)[1..] == x[1..] + y;
      EncodeBytesAppend(x[1..], y);
    }
  }

  lemma {:induction false} SerializeBytesAscii(ps: seq<Pair>)
    ensures forall i :: 0 <= i < |SerializeBytes(ps)| ==> SerializeBytes(ps)[i] < 0x80
    decreases |ps|
  {
    if |ps| > 1 {
      SerializeBytesAscii(ps[1..]);
    }
  }

  lemma {:induction false} EncodeAsciiText(bs: seq<byte>)
    requires forall i :: 0 <= i < |bs| ==> bs[i] < 0x80
    ensures Utf8.Encode(AsciiText(bs)) == bs
  {
    Utf8.EncodeAscii(AsciiText(bs));
  }

  lemma PlusToSpaceAppend(x: seq<byte>, y: seq<byte>)
    ensures PlusToSpace(x + y) == PlusToSpace(x) + PlusToSpace(y)
  {
  }

  lemma DecodeOneByte(b: byte, rest: seq<byte>)
    ensures PercentDecode(PlusToSpace(EncodeByte(b)) + rest) == [b] + PercentDecode(rest)
  {
    var e := PlusToSpace(EncodeByte(b));
    if b == Space {
      assert e == [Space];
    } else if IsUnreserved(b) {
      assert e == [b];
      assert (e + rest)[1..] == rest;
    } else {
      assert e == [Percent, DigitCode(b / 16, true), DigitCode(b % 16, true)];
      assert (e + rest)[3..] == rest;
    }
  }

  /** Percent-decoding undoes the serializer's encoding of a byte sequence. */
  lemma {:induction false} DecodeEncodeBytes(bs: seq<byte>)
    ensures PercentDecode(PlusToSpace(EncodeBytes(bs))) == bs
    decreases |bs|
  {
    if |bs| > 0 {
      PlusToSpaceAppend(EncodeByte(bs[0]), EncodeBytes(bs[1..]));
      DecodeOneByte(bs[0], PlusToSpace(EncodeBytes(bs[1..])));
      DecodeEncodeBytes(bs[1..]);
    }
  }

  /** Decoding the serialized form of a string gives back the string. */
  lemma DecodeComponentEncode(s: string)
    ensures DecodeComponent(EncodeComponent(s)) == s
  {
    DecodeEncodeBytes(Utf8.Encode(s));
    Utf8.DecodeEncode(s);
  }

  lemma ParsePieceSerialized(p: Pair)
    ensures ParsePiece(SerializePairBytes(p)) == p
  {
    var n := EncodeComponent(p.0);
    var v := EncodeComponent(p.1);
    var piece := n + [Equals] + v;
    assert forall j :: 0 <= j < |n| ==> piece[j] == n[j] && IsEncodedByte(n[j]);
    IndexOfFirst(piece, Equals, |n|);
    assert piece[..|n|] == n;
    assert piece[|n| + 1..] == v;
    DecodeComponentEncode(p.0);
    DecodeComponentEncode(p.1);
  }

  lemma {:induction false} NoAmpInPair(p: Pair)
    ensures Amp !in SerializePairBytes(p)
    ensures |SerializePairBytes(p)| > 0
  {
    var n := EncodeComponent(p.0);
    var v := EncodeComponent(p.1);
    assert forall j :: 0 <= j < |n| ==> IsEncodedByte(n[j]);
    assert forall j :: 0 <= j < |v| ==> IsEncodedByte(v[j]);
  }

  /** A lone serialized pair parses back to that pair. */
  lemma ParseLonePair(p: Pair)
    ensures ParseBytes(SerializePairBytes(p)) == [p]
  {
    var x := SerializePairBytes(p);
    NoAmpInPair(p);
    assert IndexOf(x, Amp) == |x|;
    assert x[..|x|] == x;
    ParsePieceSerialized(p);
  }

  /** A serialized pair followed by `&` parses to that pair, then whatever follows. */
  lemma ParseLeadingPair(p: Pair, rest: seq<byte>)
    ensures ParseBytes(SerializePairBytes(p) + [Amp] + rest) == [p] + ParseBytes(rest)
  {
    var x := SerializePairBytes(p);
    var bs := x + [Amp] + rest;
    NoAmpInPair(p);
    assert forall j :: 0 <= j < |x| ==> bs[j] == x[j];
    IndexOfFirst(bs, Amp, |x|);
    assert bs[..|x|] == x;
    assert bs[|x| + 1..] == rest;
    ParsePieceSerialized(p);
  }

  lemma {:induction false} ParseSerializeBytes(ps: seq<Pair>)
    ensures ParseBytes(SerializeBytes(ps)) == ps
    decreases |ps|
  {
    if |ps| == 1 {
      ParseLonePair(ps[0]);
    } else if |ps| > 1 {
      ParseLeadingPair(ps[0], SerializeBytes(ps[1..]));
      ParseSerializeBytes(ps[1..]);
      assert ps == [ps[0]] + ps[1..];
    }
  }

  lemma {:induction false} SerializedStart(ps: seq<Pair>)
    ensures |SerializeBytes(ps)| > 0 ==> SerializeBytes(ps)[0] != Question
  {
    if |ps| > 0 {
      var n := EncodeComponent(ps[0].0);
      assert SerializeBytes(ps)[0] == if |n| > 0 then n[0] else Equals;
    }
  }

  /** Parsing the serialization of a list of pairs gives back the same list, in order. */
  lemma {:induction false} ParseSerialize(ps: seq<Pair>)
    ensures Parse(Serialize(ps)) == ps
  {
    var bs := SerializeBytes(ps);
    SerializeBytesAscii(ps);
    SerializedStart(ps);
    var s := Serialize(ps);
    assert |s| > 0 ==> s[0] != '?';
    EncodeAsciiText(bs);
    ParseSerializeBytes(ps);
  }
}
