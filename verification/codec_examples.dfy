/**
 * Worked examples of the cursor codec: the tokens the library's own tests
 * expect for concrete cursors, and the cursors they expect back from concrete
 * tokens, derived from the general definitions.
 *
 * The general part characterizes "plain" cursors (keys and values that the
 * form serializer writes as themselves): their token is base64url of a byte
 * string built field by field (`EncodeFieldsPlain`). Each example then only
 * has to spell out that byte string and its base64url text; the latter is
 * done three-byte group by group, twelve bytes at a time (`Spells…`).
 */
module CodecExamples {
  import opened Wrappers
  import opened CursorTypes
  import Utf8
  import Base64Url
  import Json
  import Form = FormUrlEncoded
  import CursorCodec
  import MongoDbAdapter

  /** The node the library's tests paginate over. */
  datatype Node = Node(id: string, name: string)

  const Item := Node("1", "foobar")

  /** The bytes of an ASCII string, one per character. */
  function AsciiBytes(s: string): (b: seq<byte>)
    requires Utf8.IsAscii(s)
  {
    seq(|s|, i requires 0 <= i < |s| => s[i] as int)
  }

  /** Strings whose every character the form serializer writes as itself. */
  predicate IsPlain(s: string)
  {
    forall i :: 0 <= i < |s| ==> s[i] as int < 0x80 && Form.IsUnreserved(s[i] as int)
  }

  /** Bytes that need no escaping serialize as themselves. */
  lemma {:induction false} PlainEncodeBytes(bs: seq<byte>)
    requires forall i :: 0 <= i < |bs| ==> Form.IsUnreserved(bs[i])
    ensures Form.EncodeBytes(bs) == bs
    decreases |bs|
  {
    if |bs| > 0 {
      PlainEncodeBytes(bs[1..]);
      assert Form.EncodeByte(bs[0]) == [bs[0]];
      assert bs == [bs[0]] + bs[1..];
    }
  }

  /** A plain string serializes to its own ASCII bytes. */
  lemma PlainComponent(s: string)
    requires IsPlain(s)
    ensures Utf8.IsAscii(s)
    ensures Form.EncodeComponent(s) == AsciiBytes(s)
  {
    AsciiEncode(s);
    PlainEncodeBytes(AsciiBytes(s));
  }

  /** UTF-8 writes an ASCII string as its character codes. */
  lemma AsciiEncode(s: string)
    requires Utf8.IsAscii(s)
    ensures Utf8.Encode(s) == AsciiBytes(s)
  {
    Utf8.EncodeAscii(s);
  }

  /** A plain string in double quotes serializes with each quote written `%22`. */
  lemma QuotedComponent(s: string)
    requires IsPlain(s)
    ensures Utf8.IsAscii(s)
    ensures Form.EncodeComponent("\"" + s + "\"") == [0x25, 0x32, 0x32] + AsciiBytes(s) + [0x25, 0x32, 0x32]
  {
    var quote: seq<byte> := [0x22];
    AsciiEncode("\"" + s + "\"");
    assert AsciiBytes("\"" + s + "\"") == quote + AsciiBytes(s) + quote;
    Form.EncodeBytesAppend(quote + AsciiBytes(s), quote);
    Form.EncodeBytesAppend(quote, AsciiBytes(s));
    PlainEncodeBytes(AsciiBytes(s));
    assert Form.EncodeBytes(quote) == [0x25, 0x32, 0x32];
  }

  /** Sealing form pairs is base64url of their serialized bytes. */
  lemma SealOf(ps: seq<Form.Pair>, b: seq<byte>)
    requires Form.SerializeBytes(ps) == b
    ensures CursorCodec.Seal(ps) == Base64Url.Encode(b)
  {
    Form.SerializeBytesAscii(ps);
    Form.EncodeAsciiText(b);
  }

  /** Form pairs whose names and values are all plain. */
  predicate IsPlainPairs(ps: seq<Form.Pair>)
  {
    forall i :: 0 <= i < |ps| ==> IsPlain(ps[i].0) && IsPlain(ps[i].1)
  }

  /** The payload bytes of plain pairs: `name=value` for each pair, joined by `&`. */
  function PairsBytes(ps: seq<Form.Pair>): seq<byte>
    requires IsPlainPairs(ps)
    decreases |ps|
  {
    if |ps| == 0 then []
    else if |ps| == 1 then AsciiBytes(ps[0].0) + [0x3D] + AsciiBytes(ps[0].1)
    else AsciiBytes(ps[0].0) + [0x3D] + AsciiBytes(ps[0].1) + [0x26] + PairsBytes(ps[1..])
  }

  /** Plain pairs serialize to their pair bytes. */
  lemma {:induction false} PairsSerialize(ps: seq<Form.Pair>)
    requires IsPlainPairs(ps)
    ensures Form.SerializeBytes(ps) == PairsBytes(ps)
    decreases |ps|
  {
    if |ps| > 0 {
      PlainComponent(ps[0].0);
      PlainComponent(ps[0].1);
      if |ps| > 1 {
        PairsSerialize(ps[1..]);
      }
    }
  }

  /** One pair makes a one-key object. */
  lemma FromEntriesOne(ps: seq<Form.Pair>)
    requires |ps| == 1
    ensures CursorCodec.FromEntries(ps) == map[ps[0].0 := ps[0].1]
  {
    assert ps[..0] == [];
  }

  /** Two pairs with different names make a two-key object. */
  lemma FromEntriesTwo(ps: seq<Form.Pair>)
    requires |ps| == 2 && ps[0].0 != ps[1].0
    ensures CursorCodec.FromEntries(ps) == map[ps[0].0 := ps[0].1, ps[1].0 := ps[1].1]
  {
    FromEntriesOne(ps[..1]);
  }

  /** Plain pairs seal to base64url of their pair bytes. */
  lemma SealPlain(ps: seq<Form.Pair>)
    requires IsPlainPairs(ps)
    ensures CursorCodec.Seal(ps) == Base64Url.Encode(PairsBytes(ps))
  {
    PairsSerialize(ps);
    SealOf(ps, PairsBytes(ps));
  }

  /** Values whose JSON text needs no escaping beyond the quotes around a string. */
  predicate IsPlainValue(v: Value)
  {
    match v
    case Str(s) => IsPlain(s)
    case Num(n) => IsPlain(NumberText(n))
    case Bool(_) => true
  }

  /** Cursors whose keys and values need no escaping. */
  predicate IsPlainCursor(c: Cursor)
  {
    forall i :: 0 <= i < |c| ==> IsPlain(c[i].0) && IsPlainValue(c[i].1)
  }

  /** The form bytes of a plain value's JSON text: a string's quotes are written `%22`. */
  function ValueBytes(v: Value): seq<byte>
    requires IsPlainValue(v)
  {
    match v
    case Str(s) => [0x25, 0x32, 0x32] + AsciiBytes(s) + [0x25, 0x32, 0x32]
    case Num(n) => AsciiBytes(NumberText(n))
    case Bool(b) => if b then [0x74, 0x72, 0x75, 0x65] else [0x66, 0x61, 0x6C, 0x73, 0x65]
  }

  /** The form bytes `key=value` of a plain field. */
  function FieldBytes(f: Field): seq<byte>
    requires IsPlain(f.0) && IsPlainValue(f.1)
  {
    AsciiBytes(f.0) + [0x3D] + ValueBytes(f.1)
  }

  /** The payload bytes of a plain cursor: `key=value` for each field, joined by `&`. */
  function CursorBytes(c: Cursor): seq<byte>
    requires IsPlainCursor(c)
    decreases |c|
  {
    if |c| == 0 then []
    else if |c| == 1 then FieldBytes(c[0])
    else FieldBytes(c[0]) + [0x26] + CursorBytes(c[1..])
  }

  /** JSON leaves a plain string as it is. */
  lemma {:induction false} EscapePlain(s: string)
    requires IsPlain(s)
    ensures Json.Escape(s) == s
    decreases |s|
  {
    if |s| > 0 {
      EscapePlain(s[1..]);
      assert Json.EscapeChar(s[0]) == [s[0]];
      assert s == [s[0]] + s[1..];
    }
  }

  /** A plain value's JSON text serializes to its value bytes. */
  lemma ValueSerializes(v: Value)
    requires IsPlainValue(v)
    ensures Form.EncodeComponent(Json.Stringify(v)) == ValueBytes(v)
  {
    match v
    case Str(s) =>
      EscapePlain(s);
      QuotedComponent(s);
    case Num(n) =>
      PlainComponent(NumberText(n));
    case Bool(b) =>
      var t := if b then "true" else "false";
      assert IsPlain(t);
      PlainComponent(t);
  }

  /** A number is written as its decimal digits. */
  lemma NumberBytes(v: Value, n: nat, digits: seq<byte>)
    requires v == Num(n)
    requires |digits| == |DecimalText(n)| && forall i :: 0 <= i < |digits| ==> digits[i] == DecimalText(n)[i] as int
    ensures IsPlainValue(v) && ValueBytes(v) == digits
  {
  }

  /** A plain cursor's form payload is its cursor bytes. */
  lemma {:induction false} CursorSerializes(c: Cursor)
    requires IsPlainCursor(c)
    ensures Form.SerializeBytes(CursorCodec.JsonPairs(c)) == CursorBytes(c)
    decreases |c|
  {
    if |c| > 0 {
      var ps := CursorCodec.JsonPairs(c);
      PlainComponent(c[0].0);
      ValueSerializes(c[0].1);
      assert Form.SerializePairBytes(ps[0]) == FieldBytes(c[0]);
      if |c| > 1 {
        assert ps[1..] == CursorCodec.JsonPairs(c[1..]);
        CursorSerializes(c[1..]);
      }
    }
  }

  /** A plain cursor's token is base64url of its cursor bytes. */
  lemma EncodeFieldsPlain(c: Cursor)
    requires IsPlainCursor(c)
    ensures CursorCodec.EncodeFields(c) == Base64Url.Encode(CursorBytes(c))
  {
    CursorSerializes(c);
    SealOf(CursorCodec.JsonPairs(c), CursorBytes(c));
  }

  /** Base64url of the bytes of `after=%22` is `YWZ0ZXI9JTIy`. */
  lemma SpellsChunk0(b: seq<byte>)
    requires |b| == 9
    requires b[0] == 97 && b[1] == 102 && b[2] == 116 && b[3] == 101 && b[4] == 114 && b[5] == 61 && b[6] == 37 && b[7] == 50 && b[8] == 50
    ensures Base64Url.Encode(b) == "YWZ0ZXI9JTIy"
  {
    assert Base64Url.Sextets(b[6..]) == [9, 19, 8, 50];
    assert b[3..][3..] == b[6..];
    assert Base64Url.Sextets(b[3..]) == [25, 23, 8, 61] + Base64Url.Sextets(b[6..]);
    assert b[0..][3..] == b[3..];
    assert Base64Url.Sextets(b[0..]) == [24, 22, 25, 52] + Base64Url.Sextets(b[3..]);
    assert b[0..] == b;
  }

  /** The bytes of `after=%22`, one by one. */
  lemma LiteralChunk0(b: seq<byte>)
    requires b == [97, 102, 116, 101, 114, 61, 37, 50, 50]
    ensures |b| == 9
    ensures b[0] == 97 && b[1] == 102 && b[2] == 116 && b[3] == 101 && b[4] == 114 && b[5] == 61 && b[6] == 37 && b[7] == 50 && b[8] == 50
  {
  }

  /** Base64url of the bytes of `1%22` is `MSUyMg`. */
  lemma SpellsChunk1(b: seq<byte>)
    requires |b| == 4
    requires b[0] == 49 && b[1] == 37 && b[2] == 50 && b[3] == 50
    ensures Base64Url.Encode(b) == "MSUyMg"
  {
    assert Base64Url.Sextets(b[3..]) == [12, 32];
    assert b[0..][3..] == b[3..];
    assert Base64Url.Sextets(b[0..]) == [12, 18, 20, 50] + Base64Url.Sextets(b[3..]);
    assert b[0..] == b;
  }

  /** The bytes of `1%22`, one by one. */
  lemma LiteralChunk1(b: seq<byte>)
    requires b == [49, 37, 50, 50]
    ensures |b| == 4
    ensures b[0] == 49 && b[1] == 37 && b[2] == 50 && b[3] == 50
  {
  }

  /** Base64url of the bytes of `1%22&sort` is `MSUyMiZzb3J0`. */
  lemma SpellsChunk2(b: seq<byte>)
    requires |b| == 9
    requires b[0] == 49 && b[1] == 37 && b[2] == 50 && b[3] == 50 && b[4] == 38 && b[5] == 115 && b[6] == 111 && b[7] == 114 && b[8] == 116
    ensures Base64Url.Encode(b) == "MSUyMiZzb3J0"
  {
    assert Base64Url.Sextets(b[6..]) == [27, 55, 9, 52];
    assert b[3..][3..] == b[6..];
    assert Base64Url.Sextets(b[3..]) == [12, 34, 25, 51] + Base64Url.Sextets(b[6..]);
    assert b[0..][3..] == b[3..];
    assert Base64Url.Sextets(b[0..]) == [12, 18, 20, 50] + Base64Url.Sextets(b[3..]);
    assert b[0..] == b;
  }

  /** The bytes of `1%22&sort`, one by one. */
  lemma LiteralChunk2(b: seq<byte>)
    requires b == [49, 37, 50, 50, 38, 115, 111, 114, 116]
    ensures |b| == 9
    ensures b[0] == 49 && b[1] == 37 && b[2] == 50 && b[3] == 50 && b[4] == 38 && b[5] == 115 && b[6] == 111 && b[7] == 114 && b[8] == 116
  {
  }

  /** Base64url of the bytes of `ing=%222%` is `aW5nPSUyMjIl`. */
  lemma SpellsChunk3(b: seq<byte>)
    requires |b| == 9
    requires b[0] == 105 && b[1] == 110 && b[2] == 103 && b[3] == 61 && b[4] == 37 && b[5] == 50 && b[6] == 50 && b[7] == 50 && b[8] == 37
    ensures Base64Url.Encode(b) == "aW5nPSUyMjIl"
  {
    assert Base64Url.Sextets(b[6..]) == [12, 35, 8, 37];
    assert b[3..][3..] == b[6..];
    assert Base64Url.Sextets(b[3..]) == [15, 18, 20, 50] + Base64Url.Sextets(b[6..]);
    assert b[0..][3..] == b[3..];
    assert Base64Url.Sextets(b[0..]) == [26, 22, 57, 39] + Base64Url.Sextets(b[3..]);
    assert b[0..] == b;
  }

  /** The bytes of `ing=%222%`, one by one. */
  lemma LiteralChunk3(b: seq<byte>)
    requires b == [105, 110, 103, 61, 37, 50, 50, 50, 37]
    ensures |b| == 9
    ensures b[0] == 105 && b[1] == 110 && b[2] == 103 && b[3] == 61 && b[4] == 37 && b[5] == 50 && b[6] == 50 && b[7] == 50 && b[8] == 37
  {
  }

  /** Base64url of the bytes of `22` is `MjI`. */
  lemma SpellsChunk4(b: seq<byte>)
    requires |b| == 2
    requires b[0] == 50 && b[1] == 50
    ensures Base64Url.Encode(b) == "MjI"
  {
    assert Base64Url.Sextets(b[0..]) == [12, 35, 8];
    assert b[0..] == b;
  }

  /** The bytes of `22`, one by one. */
  lemma LiteralChunk4(b: seq<byte>)
    requires b == [50, 50]
    ensures |b| == 2
    ensures b[0] == 50 && b[1] == 50
  {
  }

  /** Base64url of the bytes of `ing=%2222` is `aW5nPSUyMjIy`. */
  lemma SpellsChunk5(b: seq<byte>)
    requires |b| == 9
    requires b[0] == 105 && b[1] == 110 && b[2] == 103 && b[3] == 61 && b[4] == 37 && b[5] == 50 && b[6] == 50 && b[7] == 50 && b[8] == 50
    ensures Base64Url.Encode(b) == "aW5nPSUyMjIy"
  {
    assert Base64Url.Sextets(b[6..]) == [12, 35, 8, 50];
    assert b[3..][3..] == b[6..];
    assert Base64Url.Sextets(b[3..]) == [15, 18, 20, 50] + Base64Url.Sextets(b[6..]);
    assert b[0..][3..] == b[3..];
    assert Base64Url.Sextets(b[0..]) == [26, 22, 57, 39] + Base64Url.Sextets(b[3..]);
    assert b[0..] == b;
  }

  /** The bytes of `ing=%2222`, one by one. */
  lemma LiteralChunk5(b: seq<byte>)
    requires b == [105, 110, 103, 61, 37, 50, 50, 50, 50]
    ensures |b| == 9
    ensures b[0] == 105 && b[1] == 110 && b[2] == 103 && b[3] == 61 && b[4] == 37 && b[5] == 50 && b[6] == 50 && b[7] == 50 && b[8] == 50
  {
  }

  /** Base64url of the bytes of `%22` is `JTIy`. */
  lemma SpellsChunk6(b: seq<byte>)
    requires |b| == 3
    requires b[0] == 37 && b[1] == 50 && b[2] == 50
    ensures Base64Url.Encode(b) == "JTIy"
  {
    assert Base64Url.Sextets(b[0..]) == [9, 19, 8, 50];
    assert b[0..] == b;
  }

  /** The bytes of `%22`, one by one. */
  lemma LiteralChunk6(b: seq<byte>)
    requires b == [37, 50, 50]
    ensures |b| == 3
    ensures b[0] == 37 && b[1] == 50 && b[2] == 50
  {
  }

  /** Base64url of the bytes of `1%22&rank` is `MSUyMiZyYW5r`. */
  lemma SpellsChunk7(b: seq<byte>)
    requires |b| == 9
    requires b[0] == 49 && b[1] == 37 && b[2] == 50 && b[3] == 50 && b[4] == 38 && b[5] == 114 && b[6] == 97 && b[7] == 110 && b[8] == 107
    ensures Base64Url.Encode(b) == "MSUyMiZyYW5r"
  {
    assert Base64Url.Sextets(b[6..]) == [24, 22, 57, 43];
    assert b[3..][3..] == b[6..];
    assert Base64Url.Sextets(b[3..]) == [12, 34, 25, 50] + Base64Url.Sextets(b[6..]);
    assert b[0..][3..] == b[3..];
    assert Base64Url.Sextets(b[0..]) == [12, 18, 20, 50] + Base64Url.Sextets(b[3..]);
    assert b[0..] == b;
  }

  /** The bytes of `1%22&rank`, one by one. */
  lemma LiteralChunk7(b: seq<byte>)
    requires b == [49, 37, 50, 50, 38, 114, 97, 110, 107]
    ensures |b| == 9
    ensures b[0] == 49 && b[1] == 37 && b[2] == 50 && b[3] == 50 && b[4] == 38 && b[5] == 114 && b[6] == 97 && b[7] == 110 && b[8] == 107
  {
  }

  /** Base64url of the bytes of `ing=1111` is `aW5nPTExMTE`. */
  lemma SpellsChunk8(b: seq<byte>)
    requires |b| == 8
    requires b[0] == 105 && b[1] == 110 && b[2] == 103 && b[3] == 61 && b[4] == 49 && b[5] == 49 && b[6] == 49 && b[7] == 49
    ensures Base64Url.Encode(b) == "aW5nPTExMTE"
  {
    assert Base64Url.Sextets(b[6..]) == [12, 19, 4];
    assert b[3..][3..] == b[6..];
    assert Base64Url.Sextets(b[3..]) == [15, 19, 4, 49] + Base64Url.Sextets(b[6..]);
    assert b[0..][3..] == b[3..];
    assert Base64Url.Sextets(b[0..]) == [26, 22, 57, 39] + Base64Url.Sextets(b[3..]);
    assert b[0..] == b;
  }

  /** The bytes of `ing=1111`, one by one. */
  lemma LiteralChunk8(b: seq<byte>)
    requires b == [105, 110, 103, 61, 49, 49, 49, 49]
    ensures |b| == 8
    ensures b[0] == 105 && b[1] == 110 && b[2] == 103 && b[3] == 61 && b[4] == 49 && b[5] == 49 && b[6] == 49 && b[7] == 49
  {
  }

  /** Base64url of the bytes of `1%22&enab` is `MSUyMiZlbmFi`. */
  lemma SpellsChunk9(b: seq<byte>)
    requires |b| == 9
    requires b[0] == 49 && b[1] == 37 && b[2] == 50 && b[3] == 50 && b[4] == 38 && b[5] == 101 && b[6] == 110 && b[7] == 97 && b[8] == 98
    ensures Base64Url.Encode(b) == "MSUyMiZlbmFi"
  {
    assert Base64Url.Sextets(b[6..]) == [27, 38, 5, 34];
    assert b[3..][3..] == b[6..];
    assert Base64Url.Sextets(b[3..]) == [12, 34, 25, 37] + Base64Url.Sextets(b[6..]);
    assert b[0..][3..] == b[3..];
    assert Base64Url.Sextets(b[0..]) == [12, 18, 20, 50] + Base64Url.Sextets(b[3..]);
    assert b[0..] == b;
  }

  /** The bytes of `1%22&enab`, one by one. */
  lemma LiteralChunk9(b: seq<byte>)
    requires b == [49, 37, 50, 50, 38, 101, 110, 97, 98]
    ensures |b| == 9
    ensures b[0] == 49 && b[1] == 37 && b[2] == 50 && b[3] == 50 && b[4] == 38 && b[5] == 101 && b[6] == 110 && b[7] == 97 && b[8] == 98
  {
  }

  /** Base64url of the bytes of `led=true` is `bGVkPXRydWU`. */
  lemma SpellsChunk10(b: seq<byte>)
    requires |b| == 8
    requires b[0] == 108 && b[1] == 101 && b[2] == 100 && b[3] == 61 && b[4] == 116 && b[5] == 114 && b[6] == 117 && b[7] == 101
    ensures Base64Url.Encode(b) == "bGVkPXRydWU"
  {
    assert Base64Url.Sextets(b[6..]) == [29, 22, 20];
    assert b[3..][3..] == b[6..];
    assert Base64Url.Sextets(b[3..]) == [15, 23, 17, 50] + Base64Url.Sextets(b[6..]);
    assert b[0..][3..] == b[3..];
    assert Base64Url.Sextets(b[0..]) == [27, 6, 21, 36] + Base64Url.Sextets(b[3..]);
    assert b[0..] == b;
  }

  /** The bytes of `led=true`, one by one. */
  lemma LiteralChunk10(b: seq<byte>)
    requires b == [108, 101, 100, 61, 116, 114, 117, 101]
    ensures |b| == 8
    ensures b[0] == 108 && b[1] == 101 && b[2] == 100 && b[3] == 61 && b[4] == 116 && b[5] == 114 && b[6] == 117 && b[7] == 101
  {
  }

  /** Base64url of the bytes of `after=1` is `YWZ0ZXI9MQ`. */
  lemma SpellsChunk11(b: seq<byte>)
    requires |b| == 7
    requires b[0] == 97 && b[1] == 102 && b[2] == 116 && b[3] == 101 && b[4] == 114 && b[5] == 61 && b[6] == 49
    ensures Base64Url.Encode(b) == "YWZ0ZXI9MQ"
  {
    assert Base64Url.Sextets(b[6..]) == [12, 16];
    assert b[3..][3..] == b[6..];
    assert Base64Url.Sextets(b[3..]) == [25, 23, 8, 61] + Base64Url.Sextets(b[6..]);
    assert b[0..][3..] == b[3..];
    assert Base64Url.Sextets(b[0..]) == [24, 22, 25, 52] + Base64Url.Sextets(b[3..]);
    assert b[0..] == b;
  }

  /** The bytes of `after=1`, one by one. */
  lemma LiteralChunk11(b: seq<byte>)
    requires b == [97, 102, 116, 101, 114, 61, 49]
    ensures |b| == 7
    ensures b[0] == 97 && b[1] == 102 && b[2] == 116 && b[3] == 101 && b[4] == 114 && b[5] == 61 && b[6] == 49
  {
  }

  /** Base64url of the bytes of `after=1&s` is `YWZ0ZXI9MSZz`. */
  lemma SpellsChunk12(b: seq<byte>)
    requires |b| == 9
    requires b[0] == 97 && b[1] == 102 && b[2] == 116 && b[3] == 101 && b[4] == 114 && b[5] == 61 && b[6] == 49 && b[7] == 38 && b[8] == 115
    ensures Base64Url.Encode(b) == "YWZ0ZXI9MSZz"
  {
    assert Base64Url.Sextets(b[6..]) == [12, 18, 25, 51];
    assert b[3..][3..] == b[6..];
    assert Base64Url.Sextets(b[3..]) == [25, 23, 8, 61] + Base64Url.Sextets(b[6..]);
    assert b[0..][3..] == b[3..];
    assert Base64Url.Sextets(b[0..]) == [24, 22, 25, 52] + Base64Url.Sextets(b[3..]);
    assert b[0..] == b;
  }

  /** The bytes of `after=1&s`, one by one. */
  lemma LiteralChunk12(b: seq<byte>)
    requires b == [97, 102, 116, 101, 114, 61, 49, 38, 115]
    ensures |b| == 9
    ensures b[0] == 97 && b[1] == 102 && b[2] == 116 && b[3] == 101 && b[4] == 114 && b[5] == 61 && b[6] == 49 && b[7] == 38 && b[8] == 115
  {
  }

  /** Base64url of the bytes of `orting=2` is `b3J0aW5nPTI`. */
  lemma SpellsChunk13(b: seq<byte>)
    requires |b| == 8
    requires b[0] == 111 && b[1] == 114 && b[2] == 116 && b[3] == 105 && b[4] == 110 && b[5] == 103 && b[6] == 61 && b[7] == 50
    ensures Base64Url.Encode(b) == "b3J0aW5nPTI"
  {
    assert Base64Url.Sextets(b[6..]) == [15, 19, 8];
    assert b[3..][3..] == b[6..];
    assert Base64Url.Sextets(b[3..]) == [26, 22, 57, 39] + Base64Url.Sextets(b[6..]);
    assert b[0..][3..] == b[3..];
    assert Base64Url.Sextets(b[0..]) == [27, 55, 9, 52] + Base64Url.Sextets(b[3..]);
    assert b[0..] == b;
  }

  /** The bytes of `orting=2`, one by one. */
  lemma LiteralChunk13(b: seq<byte>)
    requires b == [111, 114, 116, 105, 110, 103, 61, 50]
    ensures |b| == 8
    ensures b[0] == 111 && b[1] == 114 && b[2] == 116 && b[3] == 105 && b[4] == 110 && b[5] == 103 && b[6] == 61 && b[7] == 50
  {
  }

  /** Base64url of the bytes of `orting=22` is `b3J0aW5nPTIy`. */
  lemma SpellsChunk14(b: seq<byte>)
    requires |b| == 9
    requires b[0] == 111 && b[1] == 114 && b[2] == 116 && b[3] == 105 && b[4] == 110 && b[5] == 103 && b[6] == 61 && b[7] == 50 && b[8] == 50
    ensures Base64Url.Encode(b) == "b3J0aW5nPTIy"
  {
    assert Base64Url.Sextets(b[6..]) == [15, 19, 8, 50];
    assert b[3..][3..] == b[6..];
    assert Base64Url.Sextets(b[3..]) == [26, 22, 57, 39] + Base64Url.Sextets(b[6..]);
    assert b[0..][3..] == b[3..];
    assert Base64Url.Sextets(b[0..]) == [27, 55, 9, 52] + Base64Url.Sextets(b[3..]);
    assert b[0..] == b;
  }

  /** The bytes of `orting=22`, one by one. */
  lemma LiteralChunk14(b: seq<byte>)
    requires b == [111, 114, 116, 105, 110, 103, 61, 50, 50]
    ensures |b| == 9
    ensures b[0] == 111 && b[1] == 114 && b[2] == 116 && b[3] == 105 && b[4] == 110 && b[5] == 103 && b[6] == 61 && b[7] == 50 && b[8] == 50
  {
  }

  /** Base64url of the bytes of `after=%221%22` is `YWZ0ZXI9JTIyMSUyMg`. */
  lemma SpellsAfter(b0: seq<byte>, b1: seq<byte>)
    requires b0 == [97, 102, 116, 101, 114, 61, 37, 50, 50] && b1 == [49, 37, 50, 50]
    ensures Base64Url.Encode(b0 + b1) == "YWZ0ZXI9JTIy" + "MSUyMg"
  {
    LiteralChunk0(b0);
    SpellsChunk0(b0);
    LiteralChunk1(b1);
    SpellsChunk1(b1);
    Base64Url.EncodeAppend(b0, b1);
  }

  /** The pieces of `YWZ0ZXI9JTIyMSUyMg`. */
  lemma TokenAfter(s: string)
    requires s == "YWZ0ZXI9JTIy" + "MSUyMg"
    ensures s == "YWZ0ZXI9JTIyMSUyMg"
  {
  }

  /** Base64url of the bytes of `after=%221%22&sorting=%222%22` is `YWZ0ZXI9JTIyMSUyMiZzb3J0aW5nPSUyMjIlMjI`. */
  lemma SpellsSorting(b0: seq<byte>, b1: seq<byte>, b2: seq<byte>, b3: seq<byte>)
    requires b0 == [97, 102, 116, 101, 114, 61, 37, 50, 50] && b1 == [49, 37, 50, 50, 38, 115, 111, 114, 116] && b2 == [105, 110, 103, 61, 37, 50, 50, 50, 37] && b3 == [50, 50]
    ensures Base64Url.Encode(b0 + b1 + b2 + b3) == "YWZ0ZXI9JTIy" + "MSUyMiZzb3J0" + "aW5nPSUyMjIl" + "MjI"
  {
    LiteralChunk0(b0);
    SpellsChunk0(b0);
    LiteralChunk2(b1);
    SpellsChunk2(b1);
    LiteralChunk3(b2);
    SpellsChunk3(b2);
    LiteralChunk4(b3);
    SpellsChunk4(b3);
    Base64Url.EncodeAppend(b0 + b1 + b2, b3);
    Base64Url.EncodeAppend(b0 + b1, b2);
    Base64Url.EncodeAppend(b0, b1);
  }

  /** The pieces of `YWZ0ZXI9JTIyMSUyMiZzb3J0aW5nPSUyMjIlMjI`. */
  lemma TokenSorting(s: string)
    requires s == "YWZ0ZXI9JTIy" + "MSUyMiZzb3J0" + "aW5nPSUyMjIl" + "MjI"
    ensures s == "YWZ0ZXI9JTIyMSUyMiZzb3J0aW5nPSUyMjIlMjI"
  {
  }

  /** Base64url of the bytes of `after=%221%22&sorting=%2222%22` is `YWZ0ZXI9JTIyMSUyMiZzb3J0aW5nPSUyMjIyJTIy`. */
  lemma SpellsEnum(b0: seq<byte>, b1: seq<byte>, b2: seq<byte>, b3: seq<byte>)
    requires b0 == [97, 102, 116, 101, 114, 61, 37, 50, 50] && b1 == [49, 37, 50, 50, 38, 115, 111, 114, 116] && b2 == [105, 110, 103, 61, 37, 50, 50, 50, 50] && b3 == [37, 50, 50]
    ensures Base64Url.Encode(b0 + b1 + b2 + b3) == "YWZ0ZXI9JTIy" + "MSUyMiZzb3J0" + "aW5nPSUyMjIy" + "JTIy"
  {
    LiteralChunk0(b0);
    SpellsChunk0(b0);
    LiteralChunk2(b1);
    SpellsChunk2(b1);
    LiteralChunk5(b2);
    SpellsChunk5(b2);
    LiteralChunk6(b3);
    SpellsChunk6(b3);
    Base64Url.EncodeAppend(b0 + b1 + b2, b3);
    Base64Url.EncodeAppend(b0 + b1, b2);
    Base64Url.EncodeAppend(b0, b1);
  }

  /** The pieces of `YWZ0ZXI9JTIyMSUyMiZzb3J0aW5nPSUyMjIyJTIy`. */
  lemma TokenEnum(s: string)
    requires s == "YWZ0ZXI9JTIy" + "MSUyMiZzb3J0" + "aW5nPSUyMjIy" + "JTIy"
    ensures s == "YWZ0ZXI9JTIyMSUyMiZzb3J0aW5nPSUyMjIyJTIy"
  {
  }

  /** Base64url of the bytes of `after=%221%22&ranking=1111` is `YWZ0ZXI9JTIyMSUyMiZyYW5raW5nPTExMTE`. */
  lemma SpellsRanking(b0: seq<byte>, b1: seq<byte>, b2: seq<byte>)
    requires b0 == [97, 102, 116, 101, 114, 61, 37, 50, 50] && b1 == [49, 37, 50, 50, 38, 114, 97, 110, 107] && b2 == [105, 110, 103, 61, 49, 49, 49, 49]
    ensures Base64Url.Encode(b0 + b1 + b2) == "YWZ0ZXI9JTIy" + "MSUyMiZyYW5r" + "aW5nPTExMTE"
  {
    LiteralChunk0(b0);
    SpellsChunk0(b0);
    LiteralChunk7(b1);
    SpellsChunk7(b1);
    LiteralChunk8(b2);
    SpellsChunk8(b2);
    Base64Url.EncodeAppend(b0 + b1, b2);
    Base64Url.EncodeAppend(b0, b1);
  }

  /** The pieces of `YWZ0ZXI9JTIyMSUyMiZyYW5raW5nPTExMTE`. */
  lemma TokenRanking(s: string)
    requires s == "YWZ0ZXI9JTIy" + "MSUyMiZyYW5r" + "aW5nPTExMTE"
    ensures s == "YWZ0ZXI9JTIyMSUyMiZyYW5raW5nPTExMTE"
  {
  }

  /** Base64url of the bytes of `after=%221%22&enabled=true` is `YWZ0ZXI9JTIyMSUyMiZlbmFibGVkPXRydWU`. */
  lemma SpellsEnabled(b0: seq<byte>, b1: seq<byte>, b2: seq<byte>)
    requires b0 == [97, 102, 116, 101, 114, 61, 37, 50, 50] && b1 == [49, 37, 50, 50, 38, 101, 110, 97, 98] && b2 == [108, 101, 100, 61, 116, 114, 117, 101]
    ensures Base64Url.Encode(b0 + b1 + b2) == "YWZ0ZXI9JTIy" + "MSUyMiZlbmFi" + "bGVkPXRydWU"
  {
    LiteralChunk0(b0);
    SpellsChunk0(b0);
    LiteralChunk9(b1);
    SpellsChunk9(b1);
    LiteralChunk10(b2);
    SpellsChunk10(b2);
    Base64Url.EncodeAppend(b0 + b1, b2);
    Base64Url.EncodeAppend(b0, b1);
  }

  /** The pieces of `YWZ0ZXI9JTIyMSUyMiZlbmFibGVkPXRydWU`. */
  lemma TokenEnabled(s: string)
    requires s == "YWZ0ZXI9JTIy" + "MSUyMiZlbmFi" + "bGVkPXRydWU"
    ensures s == "YWZ0ZXI9JTIyMSUyMiZlbmFibGVkPXRydWU"
  {
  }

  /** Base64url of the bytes of `after=1` is `YWZ0ZXI9MQ`. */
  lemma SpellsPlainAfter(b0: seq<byte>)
    requires b0 == [97, 102, 116, 101, 114, 61, 49]
    ensures Base64Url.Encode(b0) == "YWZ0ZXI9MQ"
  {
    LiteralChunk11(b0);
    SpellsChunk11(b0);
  }

  /** Base64url of the bytes of `after=1&sorting=2` is `YWZ0ZXI9MSZzb3J0aW5nPTI`. */
  lemma SpellsPlainSorting(b0: seq<byte>, b1: seq<byte>)
    requires b0 == [97, 102, 116, 101, 114, 61, 49, 38, 115] && b1 == [111, 114, 116, 105, 110, 103, 61, 50]
    ensures Base64Url.Encode(b0 + b1) == "YWZ0ZXI9MSZz" + "b3J0aW5nPTI"
  {
    LiteralChunk12(b0);
    SpellsChunk12(b0);
    LiteralChunk13(b1);
    SpellsChunk13(b1);
    Base64Url.EncodeAppend(b0, b1);
  }

  /** The pieces of `YWZ0ZXI9MSZzb3J0aW5nPTI`. */
  lemma TokenPlainSorting(s: string)
    requires s == "YWZ0ZXI9MSZz" + "b3J0aW5nPTI"
    ensures s == "YWZ0ZXI9MSZzb3J0aW5nPTI"
  {
  }

  /** Base64url of the bytes of `after=1&sorting=22` is `YWZ0ZXI9MSZzb3J0aW5nPTIy`. */
  lemma SpellsPlainEnum(b0: seq<byte>, b1: seq<byte>)
    requires b0 == [97, 102, 116, 101, 114, 61, 49, 38, 115] && b1 == [111, 114, 116, 105, 110, 103, 61, 50, 50]
    ensures Base64Url.Encode(b0 + b1) == "YWZ0ZXI9MSZz" + "b3J0aW5nPTIy"
  {
    LiteralChunk12(b0);
    SpellsChunk12(b0);
    LiteralChunk14(b1);
    SpellsChunk14(b1);
    Base64Url.EncodeAppend(b0, b1);
  }

  /** The pieces of `YWZ0ZXI9MSZzb3J0aW5nPTIy`. */
  lemma TokenPlainEnum(s: string)
    requires s == "YWZ0ZXI9MSZz" + "b3J0aW5nPTIy"
    ensures s == "YWZ0ZXI9MSZzb3J0aW5nPTIy"
  {
  }

  /** The field `after: '1'` is written as `after=%221%22`. */
  lemma FieldAfter1(f: Field)
    requires f == ("after", Str("1"))
    requires IsPlain(f.0) && IsPlainValue(f.1)
    ensures FieldBytes(f) == [97, 102, 116, 101, 114, 61, 37, 50, 50, 49, 37, 50, 50]
  {
  }

  /** The fields `{after: '1'}` need no escaping. */
  lemma PlainAfter(c: Cursor)
    requires |c| == 1 && c[0] == ("after", Str("1"))
    ensures IsPlainCursor(c)
  {
  }

  /** The fields `{after: '1'}` are written as `after=%221%22`. */
  lemma BytesAfter(c: Cursor)
    requires |c| == 1 && c[0] == ("after", Str("1"))
    requires IsPlainCursor(c)
    ensures CursorBytes(c) == [97, 102, 116, 101, 114, 61, 37, 50, 50, 49, 37, 50, 50]
  {
    FieldAfter1(c[0]);
  }

  lemma RegroupAfter(b: seq<byte>)
    requires b == [97, 102, 116, 101, 114, 61, 37, 50, 50, 49, 37, 50, 50]
    ensures b == [97, 102, 116, 101, 114, 61, 37, 50, 50] + [49, 37, 50, 50]
  {
  }

  lemma EncodesFieldsAfter(c: Cursor)
    requires |c| == 1 && c[0] == ("after", Str("1"))
    ensures CursorCodec.EncodeFields(c) == "YWZ0ZXI9JTIyMSUyMg"
  {
    PlainAfter(c);
    BytesAfter(c);
    RegroupAfter(CursorBytes(c));
    EncodeFieldsPlain(c);
    SpellsAfter([97, 102, 116, 101, 114, 61, 37, 50, 50], [49, 37, 50, 50]);
    TokenAfter(CursorCodec.EncodeFields(c));
  }

  /** The cursor `{after: '1'}` of the test item encodes to `YWZ0ZXI9JTIyMSUyMg`. */
  lemma EncodesAfter()
    ensures CursorCodec.EncodeCursor(Item, (n: Node) => [("after", Str("1"))]) == "YWZ0ZXI9JTIyMSUyMg"
  {
    EncodesFieldsAfter([("after", Str("1"))]);
  }

  /** The field `sorting: '2'` is written as `sorting=%222%22`. */
  lemma FieldSorting2(f: Field)
    requires f == ("sorting", Str("2"))
    requires IsPlain(f.0) && IsPlainValue(f.1)
    ensures FieldBytes(f) == [115, 111, 114, 116, 105, 110, 103, 61, 37, 50, 50, 50, 37, 50, 50]
  {
  }

  /** The fields `{after: '1', sorting: '2'}` need no escaping. */
  lemma PlainSorting(c: Cursor)
    requires |c| == 2 && c[0] == ("after", Str("1")) && c[1] == ("sorting", Str("2"))
    ensures IsPlainCursor(c)
  {
  }

  /** The fields `{after: '1', sorting: '2'}` are written as `after=%221%22&sorting=%222%22`. */
  lemma BytesSorting(c: Cursor)
    requires |c| == 2 && c[0] == ("after", Str("1")) && c[1] == ("sorting", Str("2"))
    requires IsPlainCursor(c)
    ensures CursorBytes(c) == [97, 102, 116, 101, 114, 61, 37, 50, 50, 49, 37, 50, 50] + [38] + [115, 111, 114, 116, 105, 110, 103, 61, 37, 50, 50, 50, 37, 50, 50]
  {
    FieldAfter1(c[0]);
    FieldSorting2(c[1]);
    assert c[1..][0] == c[1];
  }

  lemma RegroupSorting(b: seq<byte>)
    requires b == [97, 102, 116, 101, 114, 61, 37, 50, 50, 49, 37, 50, 50] + [38] + [115, 111, 114, 116, 105, 110, 103, 61, 37, 50, 50, 50, 37, 50, 50]
    ensures b == [97, 102, 116, 101, 114, 61, 37, 50, 50] + [49, 37, 50, 50, 38, 115, 111, 114, 116] + [105, 110, 103, 61, 37, 50, 50, 50, 37] + [50, 50]
  {
  }

  lemma EncodesFieldsSorting(c: Cursor)
    requires |c| == 2 && c[0] == ("after", Str("1")) && c[1] == ("sorting", Str("2"))
    ensures CursorCodec.EncodeFields(c) == "YWZ0ZXI9JTIyMSUyMiZzb3J0aW5nPSUyMjIlMjI"
  {
    PlainSorting(c);
    BytesSorting(c);
    RegroupSorting(CursorBytes(c));
    EncodeFieldsPlain(c);
    SpellsSorting([97, 102, 116, 101, 114, 61, 37, 50, 50], [49, 37, 50, 50, 38, 115, 111, 114, 116], [105, 110, 103, 61, 37, 50, 50, 50, 37], [50, 50]);
    TokenSorting(CursorCodec.EncodeFields(c));
  }

  /** The cursor `{after: '1', sorting: '2'}` of the test item encodes to `YWZ0ZXI9JTIyMSUyMiZzb3J0aW5nPSUyMjIlMjI`. */
  lemma EncodesSorting()
    ensures CursorCodec.EncodeCursor(Item, (n: Node) => [("after", Str("1")), ("sorting", Str("2"))]) == "YWZ0ZXI9JTIyMSUyMiZzb3J0aW5nPSUyMjIlMjI"
  {
    EncodesFieldsSorting([("after", Str("1")), ("sorting", Str("2"))]);
  }

  /** The field `sorting: '22'` is written as `sorting=%2222%22`. */
  lemma FieldSorting22(f: Field)
    requires f == ("sorting", Str("22"))
    requires IsPlain(f.0) && IsPlainValue(f.1)
    ensures FieldBytes(f) == [115, 111, 114, 116, 105, 110, 103, 61, 37, 50, 50, 50, 50, 37, 50, 50]
  {
  }

  /** The fields `{after: '1', sorting: '22'}` need no escaping. */
  lemma PlainEnum(c: Cursor)
    requires |c| == 2 && c[0] == ("after", Str("1")) && c[1] == ("sorting", Str("22"))
    ensures IsPlainCursor(c)
  {
  }

  /** The fields `{after: '1', sorting: '22'}` are written as `after=%221%22&sorting=%2222%22`. */
  lemma BytesEnum(c: Cursor)
    requires |c| == 2 && c[0] == ("after", Str("1")) && c[1] == ("sorting", Str("22"))
    requires IsPlainCursor(c)
    ensures CursorBytes(c) == [97, 102, 116, 101, 114, 61, 37, 50, 50, 49, 37, 50, 50] + [38] + [115, 111, 114, 116, 105, 110, 103, 61, 37, 50, 50, 50, 50, 37, 50, 50]
  {
    FieldAfter1(c[0]);
    FieldSorting22(c[1]);
    assert c[1..][0] == c[1];
  }

  lemma RegroupEnum(b: seq<byte>)
    requires b == [97, 102, 116, 101, 114, 61, 37, 50, 50, 49, 37, 50, 50] + [38] + [115, 111, 114, 116, 105, 110, 103, 61, 37, 50, 50, 50, 50, 37, 50, 50]
    ensures b == [97, 102, 116, 101, 114, 61, 37, 50, 50] + [49, 37, 50, 50, 38, 115, 111, 114, 116] + [105, 110, 103, 61, 37, 50, 50, 50, 50] + [37, 50, 50]
  {
  }

  lemma EncodesFieldsEnum(c: Cursor)
    requires |c| == 2 && c[0] == ("after", Str("1")) && c[1] == ("sorting", Str("22"))
    ensures CursorCodec.EncodeFields(c) == "YWZ0ZXI9JTIyMSUyMiZzb3J0aW5nPSUyMjIyJTIy"
  {
    PlainEnum(c);
    BytesEnum(c);
    RegroupEnum(CursorBytes(c));
    EncodeFieldsPlain(c);
    SpellsEnum([97, 102, 116, 101, 114, 61, 37, 50, 50], [49, 37, 50, 50, 38, 115, 111, 114, 116], [105, 110, 103, 61, 37, 50, 50, 50, 50], [37, 50, 50]);
    TokenEnum(CursorCodec.EncodeFields(c));
  }

  /** The cursor `{after: '1', sorting: '22'}` of the test item encodes to `YWZ0ZXI9JTIyMSUyMiZzb3J0aW5nPSUyMjIyJTIy`. */
  lemma EncodesEnum()
    ensures CursorCodec.EncodeCursor(Item, (n: Node) => [("after", Str("1")), ("sorting", Str("22"))]) == "YWZ0ZXI9JTIyMSUyMiZzb3J0aW5nPSUyMjIyJTIy"
  {
    EncodesFieldsEnum([("after", Str("1")), ("sorting", Str("22"))]);
  }

  /** `1111` is written as its digits. */
  lemma NumberBytes1111(v: Value)
    requires v == Num(1111)
    ensures IsPlainValue(v) && ValueBytes(v) == [49, 49, 49, 49]
  {
    NumberBytes(v, 1111, [49, 49, 49, 49]);
  }

  /** The field `ranking: 1111` is written as `ranking=1111`. */
  lemma FieldRanking1111(f: Field)
    requires f == ("ranking", Num(1111))
    requires IsPlain(f.0) && IsPlainValue(f.1)
    ensures FieldBytes(f) == [114, 97, 110, 107, 105, 110, 103, 61, 49, 49, 49, 49]
  {
    NumberBytes1111(f.1);
  }

  /** The fields `{after: '1', ranking: 1111}` need no escaping. */
  lemma PlainRanking(c: Cursor)
    requires |c| == 2 && c[0] == ("after", Str("1")) && c[1] == ("ranking", Num(1111))
    ensures IsPlainCursor(c)
  {
  }

  /** The fields `{after: '1', ranking: 1111}` are written as `after=%221%22&ranking=1111`. */
  lemma BytesRanking(c: Cursor)
    requires |c| == 2 && c[0] == ("after", Str("1")) && c[1] == ("ranking", Num(1111))
    requires IsPlainCursor(c)
    ensures CursorBytes(c) == [97, 102, 116, 101, 114, 61, 37, 50, 50, 49, 37, 50, 50] + [38] + [114, 97, 110, 107, 105, 110, 103, 61, 49, 49, 49, 49]
  {
    FieldAfter1(c[0]);
    FieldRanking1111(c[1]);
    assert c[1..][0] == c[1];
  }

  lemma RegroupRanking(b: seq<byte>)
    requires b == [97, 102, 116, 101, 114, 61, 37, 50, 50, 49, 37, 50, 50] + [38] + [114, 97, 110, 107, 105, 110, 103, 61, 49, 49, 49, 49]
    ensures b == [97, 102, 116, 101, 114, 61, 37, 50, 50] + [49, 37, 50, 50, 38, 114, 97, 110, 107] + [105, 110, 103, 61, 49, 49, 49, 49]
  {
  }

  lemma EncodesFieldsRanking(c: Cursor)
    requires |c| == 2 && c[0] == ("after", Str("1")) && c[1] == ("ranking", Num(1111))
    ensures CursorCodec.EncodeFields(c) == "YWZ0ZXI9JTIyMSUyMiZyYW5raW5nPTExMTE"
  {
    PlainRanking(c);
    BytesRanking(c);
    RegroupRanking(CursorBytes(c));
    EncodeFieldsPlain(c);
    SpellsRanking([97, 102, 116, 101, 114, 61, 37, 50, 50], [49, 37, 50, 50, 38, 114, 97, 110, 107], [105, 110, 103, 61, 49, 49, 49, 49]);
    TokenRanking(CursorCodec.EncodeFields(c));
  }

  /** The cursor `{after: '1', ranking: 1111}` of the test item encodes to `YWZ0ZXI9JTIyMSUyMiZyYW5raW5nPTExMTE`. */
  lemma EncodesRanking()
    ensures CursorCodec.EncodeCursor(Item, (n: Node) => [("after", Str("1")), ("ranking", Num(1111))]) == "YWZ0ZXI9JTIyMSUyMiZyYW5raW5nPTExMTE"
  {
    EncodesFieldsRanking([("after", Str("1")), ("ranking", Num(1111))]);
  }

  /** The field `enabled: true` is written as `enabled=true`. */
  lemma FieldEnabledTrue(f: Field)
    requires f == ("enabled", Bool(true))
    requires IsPlain(f.0) && IsPlainValue(f.1)
    ensures FieldBytes(f) == [101, 110, 97, 98, 108, 101, 100, 61, 116, 114, 117, 101]
  {
  }

  /** The fields `{after: '1', enabled: true}` need no escaping. */
  lemma PlainEnabled(c: Cursor)
    requires |c| == 2 && c[0] == ("after", Str("1")) && c[1] == ("enabled", Bool(true))
    ensures IsPlainCursor(c)
  {
  }

  /** The fields `{after: '1', enabled: true}` are written as `after=%221%22&enabled=true`. */
  lemma BytesEnabled(c: Cursor)
    requires |c| == 2 && c[0] == ("after", Str("1")) && c[1] == ("enabled", Bool(true))
    requires IsPlainCursor(c)
    ensures CursorBytes(c) == [97, 102, 116, 101, 114, 61, 37, 50, 50, 49, 37, 50, 50] + [38] + [101, 110, 97, 98, 108, 101, 100, 61, 116, 114, 117, 101]
  {
    FieldAfter1(c[0]);
    FieldEnabledTrue(c[1]);
    assert c[1..][0] == c[1];
  }

  lemma RegroupEnabled(b: seq<byte>)
    requires b == [97, 102, 116, 101, 114, 61, 37, 50, 50, 49, 37, 50, 50] + [38] + [101, 110, 97, 98, 108, 101, 100, 61, 116, 114, 117, 101]
    ensures b == [97, 102, 116, 101, 114, 61, 37, 50, 50] + [49, 37, 50, 50, 38, 101, 110, 97, 98] + [108, 101, 100, 61, 116, 114, 117, 101]
  {
  }

  lemma EncodesFieldsEnabled(c: Cursor)
    requires |c| == 2 && c[0] == ("after", Str("1")) && c[1] == ("enabled", Bool(true))
    ensures CursorCodec.EncodeFields(c) == "YWZ0ZXI9JTIyMSUyMiZlbmFibGVkPXRydWU"
  {
    PlainEnabled(c);
    BytesEnabled(c);
    RegroupEnabled(CursorBytes(c));
    EncodeFieldsPlain(c);
    SpellsEnabled([97, 102, 116, 101, 114, 61, 37, 50, 50], [49, 37, 50, 50, 38, 101, 110, 97, 98], [108, 101, 100, 61, 116, 114, 117, 101]);
    TokenEnabled(CursorCodec.EncodeFields(c));
  }

  /** The cursor `{after: '1', enabled: true}` of the test item encodes to `YWZ0ZXI9JTIyMSUyMiZlbmFibGVkPXRydWU`. */
  lemma EncodesEnabled()
    ensures CursorCodec.EncodeCursor(Item, (n: Node) => [("after", Str("1")), ("enabled", Bool(true))]) == "YWZ0ZXI9JTIyMSUyMiZlbmFibGVkPXRydWU"
  {
    EncodesFieldsEnabled([("after", Str("1")), ("enabled", Bool(true))]);
  }

  /** The pairs `after=1` need no escaping. */
  lemma PlainPairsAfter(ps: seq<Form.Pair>)
    requires |ps| == 1 && ps[0] == ("after", "1")
    ensures IsPlainPairs(ps)
  {
  }

  /** The pairs `after=1` are written as themselves. */
  lemma PairBytesAfter(ps: seq<Form.Pair>)
    requires |ps| == 1 && ps[0] == ("after", "1")
    requires IsPlainPairs(ps)
    ensures PairsBytes(ps) == [97, 102, 116, 101, 114, 61, 49]
  {
  }

  /** The pairs `after=1` are sealed as `YWZ0ZXI9MQ`. */
  lemma SealsAfter(ps: seq<Form.Pair>)
    requires |ps| == 1 && ps[0] == ("after", "1")
    ensures CursorCodec.Seal(ps) == "YWZ0ZXI9MQ"
  {
    PlainPairsAfter(ps);
    PairBytesAfter(ps);
    SealPlain(ps);
    SpellsPlainAfter([97, 102, 116, 101, 114, 61, 49]);
  }

  /** Sealed pairs with distinct names decode to the map of those pairs. */
  lemma DecodesPairsAfter(ps: seq<Form.Pair>)
    requires |ps| == 1 && ps[0] == ("after", "1")
    ensures CursorCodec.DecodeCursor(CursorCodec.Seal(ps)) == map["after" := "1"]
  {
    CursorCodec.OpenSeal(ps);
    FromEntriesOne(ps);
  }

  /** `YWZ0ZXI9MQ` decodes to `{after: '1'}`. */
  lemma DecodesAfter()
    ensures CursorCodec.DecodeCursor("YWZ0ZXI9MQ") == map["after" := "1"]
  {
    SealsAfter([("after", "1")]);
    DecodesPairsAfter([("after", "1")]);
  }

  /** The pairs `after=1&sorting=2` need no escaping. */
  lemma PlainPairsSorting(ps: seq<Form.Pair>)
    requires |ps| == 2 && ps[0] == ("after", "1") && ps[1] == ("sorting", "2")
    ensures IsPlainPairs(ps)
  {
  }

  /** The pairs `after=1&sorting=2` are written as themselves. */
  lemma PairBytesSorting(ps: seq<Form.Pair>)
    requires |ps| == 2 && ps[0] == ("after", "1") && ps[1] == ("sorting", "2")
    requires IsPlainPairs(ps)
    ensures PairsBytes(ps) == [97, 102, 116, 101, 114, 61, 49, 38, 115] + [111, 114, 116, 105, 110, 103, 61, 50]
  {
  }

  /** The pairs `after=1&sorting=2` are sealed as `YWZ0ZXI9MSZzb3J0aW5nPTI`. */
  lemma SealsSorting(ps: seq<Form.Pair>)
    requires |ps| == 2 && ps[0] == ("after", "1") && ps[1] == ("sorting", "2")
    ensures CursorCodec.Seal(ps) == "YWZ0ZXI9MSZzb3J0aW5nPTI"
  {
    PlainPairsSorting(ps);
    PairBytesSorting(ps);
    SealPlain(ps);
    SpellsPlainSorting([97, 102, 116, 101, 114, 61, 49, 38, 115], [111, 114, 116, 105, 110, 103, 61, 50]);
    TokenPlainSorting(CursorCodec.Seal(ps));
  }

  /** Sealed pairs with distinct names decode to the map of those pairs. */
  lemma DecodesPairsSorting(ps: seq<Form.Pair>)
    requires |ps| == 2 && ps[0] == ("after", "1") && ps[1] == ("sorting", "2")
    ensures CursorCodec.DecodeCursor(CursorCodec.Seal(ps)) == map["after" := "1", "sorting" := "2"]
  {
    CursorCodec.OpenSeal(ps);
    FromEntriesTwo(ps);
  }

  /** `YWZ0ZXI9MSZzb3J0aW5nPTI` decodes to `{after: '1', sorting: '2'}`. */
  lemma DecodesSorting()
    ensures CursorCodec.DecodeCursor("YWZ0ZXI9MSZzb3J0aW5nPTI") == map["after" := "1", "sorting" := "2"]
  {
    SealsSorting([("after", "1"), ("sorting", "2")]);
    DecodesPairsSorting([("after", "1"), ("sorting", "2")]);
  }

  /** The pairs `after=1&sorting=22` need no escaping. */
  lemma PlainPairsEnum(ps: seq<Form.Pair>)
    requires |ps| == 2 && ps[0] == ("after", "1") && ps[1] == ("sorting", "22")
    ensures IsPlainPairs(ps)
  {
  }

  /** The pairs `after=1&sorting=22` are written as themselves. */
  lemma PairBytesEnum(ps: seq<Form.Pair>)
    requires |ps| == 2 && ps[0] == ("after", "1") && ps[1] == ("sorting", "22")
    requires IsPlainPairs(ps)
    ensures PairsBytes(ps) == [97, 102, 116, 101, 114, 61, 49, 38, 115] + [111, 114, 116, 105, 110, 103, 61, 50, 50]
  {
  }

  /** The pairs `after=1&sorting=22` are sealed as `YWZ0ZXI9MSZzb3J0aW5nPTIy`. */
  lemma SealsEnum(ps: seq<Form.Pair>)
    requires |ps| == 2 && ps[0] == ("after", "1") && ps[1] == ("sorting", "22")
    ensures CursorCodec.Seal(ps) == "YWZ0ZXI9MSZzb3J0aW5nPTIy"
  {
    PlainPairsEnum(ps);
    PairBytesEnum(ps);
    SealPlain(ps);
    SpellsPlainEnum([97, 102, 116, 101, 114, 61, 49, 38, 115], [111, 114, 116, 105, 110, 103, 61, 50, 50]);
    TokenPlainEnum(CursorCodec.Seal(ps));
  }

  /** Sealed pairs with distinct names decode to the map of those pairs. */
  lemma DecodesPairsEnum(ps: seq<Form.Pair>)
    requires |ps| == 2 && ps[0] == ("after", "1") && ps[1] == ("sorting", "22")
    ensures CursorCodec.DecodeCursor(CursorCodec.Seal(ps)) == map["after" := "1", "sorting" := "22"]
  {
    CursorCodec.OpenSeal(ps);
    FromEntriesTwo(ps);
  }

  /** `YWZ0ZXI9MSZzb3J0aW5nPTIy` decodes to `{after: '1', sorting: '22'}`. */
  lemma DecodesEnum()
    ensures CursorCodec.DecodeCursor("YWZ0ZXI9MSZzb3J0aW5nPTIy") == map["after" := "1", "sorting" := "22"]
  {
    SealsEnum([("after", "1"), ("sorting", "22")]);
    DecodesPairsEnum([("after", "1"), ("sorting", "22")]);
  }

  // ---- the value's type is kept ----

  /** The string `'1'` and the number `1` give different tokens. */
  lemma StringAndNumberDiffer()
    ensures CursorCodec.EncodeFields([("after", Str("1"))]) != CursorCodec.EncodeFields([("after", Num(1))])
  {
    if CursorCodec.EncodeFields([("after", Str("1"))]) == CursorCodec.EncodeFields([("after", Num(1))]) {
      CursorCodec.EncodeInjective([("after", Str("1"))], [("after", Num(1))]);
      assert false;
    }
  }

  // ---- a token that is not one ----

  /** `foobar` read as base64url is four bytes; the second is not valid UTF-8 on its own. */
  lemma FoobarBytes(s: string)
    requires s == "foobar"
    ensures Base64Url.Decode(s) == [126, 138, 27, 106]
  {
    assert Base64Url.DigitsOf(s[5..]) == [43] by {
      assert s[5..][1..] == [];
    }
    assert Base64Url.DigitsOf(s[4..]) == [26] + Base64Url.DigitsOf(s[5..]) by {
      assert s[4..][1..] == s[5..];
    }
    assert Base64Url.DigitsOf(s[3..]) == [27] + Base64Url.DigitsOf(s[4..]) by {
      assert s[3..][1..] == s[4..];
    }
    assert Base64Url.DigitsOf(s[2..]) == [40] + Base64Url.DigitsOf(s[3..]) by {
      assert s[2..][1..] == s[3..];
    }
    assert Base64Url.DigitsOf(s[1..]) == [40] + Base64Url.DigitsOf(s[2..]) by {
      assert s[1..][1..] == s[2..];
    }
    assert Base64Url.DigitsOf(s) == [31] + Base64Url.DigitsOf(s[1..]);
    var d := Base64Url.DigitsOf(s);
    assert d == [31, 40, 40, 27, 26, 43];
    assert d[4..] == [26, 43];
    assert Base64Url.BytesOf(d[4..]) == [106];
  }

  /** Those bytes decode to `~`, a replacement character, an escape character and `j`. */
  lemma FoobarText(b: seq<byte>)
    requires b == [126, 138, 27, 106]
    ensures Utf8.Decode(b) == "~\U{FFFD}\U{1B}j"
  {
    assert Utf8.Step(b[3..]) == ('j', 1);
    assert Utf8.Decode(b[3..]) == "j" by {
      assert b[3..][1..] == [];
    }
    assert Utf8.Step(b[2..]) == ('\U{1B}', 1);
    assert Utf8.Decode(b[2..]) == "\U{1B}" + Utf8.Decode(b[3..]) by {
      assert b[2..][1..] == b[3..];
    }
    assert Utf8.Step(b[1..]) == (Utf8.Replacement, 1);
    assert Utf8.Decode(b[1..]) == [Utf8.Replacement] + Utf8.Decode(b[2..]) by {
      assert b[1..][1..] == b[2..];
    }
    assert Utf8.Step(b) == ('~', 1);
  }

  /** Percent-decoding leaves bytes without `%` as they are. */
  lemma {:induction false} PercentDecodeUnescaped(bs: seq<byte>)
    requires Form.Percent !in bs
    ensures Form.PercentDecode(bs) == bs
    decreases |bs|
  {
    if |bs| > 0 {
      PercentDecodeUnescaped(bs[1..]);
      assert bs == [bs[0]] + bs[1..];
    }
  }

  /** The replacement character takes three bytes in UTF-8. */
  lemma FoobarEncoded(t: string)
    requires t == "~\U{FFFD}\U{1B}j"
    ensures Utf8.Encode(t) == [126, 0xEF, 0xBF, 0xBD, 27, 106]
  {
    assert Utf8.Encode(t[3..]) == [106] by {
      assert t[3..][1..] == [];
    }
    assert Utf8.Encode(t[2..]) == [27] + Utf8.Encode(t[3..]) by {
      assert t[2..][1..] == t[3..];
    }
    assert Utf8.EncodeChar(t[1]) == [0xEF, 0xBF, 0xBD];
    assert Utf8.Encode(t[1..]) == [0xEF, 0xBF, 0xBD] + Utf8.Encode(t[2..]) by {
      assert t[1..][1..] == t[2..];
    }
  }

  /** The UTF-8 bytes of a text, free of `+` and `%`, decode as a form component to that text. */
  lemma UnescapedComponent(t: string, b: seq<byte>)
    requires b == Utf8.Encode(t)
    requires Form.Plus !in b && Form.Percent !in b
    ensures Form.DecodeComponent(b) == t
  {
    Utf8.DecodeEncode(t);
    assert Form.PlusToSpace(b) == b;
    PercentDecodeUnescaped(b);
  }

  /** Bytes without `&` or `=` form one pair: their decoded text as its name, with an empty value. */
  lemma OnePiece(t: string, b: seq<byte>)
    requires |b| > 0 && Form.Amp !in b && Form.Equals !in b
    requires Form.DecodeComponent(b) == t
    ensures Form.ParseBytes(b) == [(t, "")]
  {
    assert Form.DecodeComponent([]) == "";
    assert Form.IndexOf(b, Form.Equals) == |b|;
    assert b[..|b|] == b;
    assert Form.ParsePiece(b) == (t, "");
    assert Form.IndexOf(b, Form.Amp) == |b|;
  }

  /** That text is one form pair, the whole text as its name with an empty value. */
  lemma FoobarPairs(t: string)
    requires t == "~\U{FFFD}\U{1B}j"
    ensures Form.Parse(t) == [(t, "")]
  {
    FoobarEncoded(t);
    var b := Utf8.Encode(t);
    UnescapedComponent(t, b);
    OnePiece(t, b);
  }

  /** The MongoDB adapter reads the token `foobar` as no cursor at all. */
  lemma MongoDecodesFoobar()
    ensures MongoDbAdapter.DecodeCursor("foobar") == map[]
  {
    FoobarBytes("foobar");
    FoobarText([126, 138, 27, 106]);
    FoobarPairs("~\U{FFFD}\U{1B}j");
    assert CursorCodec.Open("foobar") == [("~\U{FFFD}\U{1B}j", "")];
    assert Form.Get(CursorCodec.Open("foobar"), "after") == None;
  }

  /** The generic decoder reads the same token as one key, the decoded text itself, with an empty value. */
  lemma GenericDecodesFoobar()
    ensures CursorCodec.DecodeCursor("foobar") == map["~\U{FFFD}\U{1B}j" := ""]
  {
    FoobarBytes("foobar");
    FoobarText([126, 138, 27, 106]);
    FoobarPairs("~\U{FFFD}\U{1B}j");
    assert CursorCodec.Open("foobar") == [("~\U{FFFD}\U{1B}j", "")];
    FromEntriesOne(CursorCodec.Open("foobar"));
  }
}
