/**
 * The cursor codec of `src/cursor`: a cursor object becomes an opaque token by
 * writing each field value as JSON text, form-encoding the `key=value` pairs and
 * base64url-encoding the result; a token becomes a map from keys to the texts
 * it carries. Decoding does not read the JSON back, so a decoded value is the
 * JSON text of the encoded one, not the value itself.
 */
module CursorCodec {
  import opened Wrappers
  import opened CursorTypes
  import Json
  import Base64Url
  import Utf8
  import Form = FormUrlEncoded

  /** A decoded cursor, as `Object.fromEntries` builds it: every value is a string. */
  type Decoded = map<string, string>

  /** The token carrying a list of form pairs: serialize, UTF-8 encode, base64url-encode. */
  function Seal(ps: seq<Form.Pair>): (token: string)
    ensures forall i :: 0 <= i < |token| ==> Base64Url.IsUrlSafeChar(token[i])
  {
    Base64Url.Encode(Utf8.Encode(Form.Serialize(ps)))
  }

  /** The form pairs a token carries: base64url-decode, UTF-8 decode, parse. Total. */
  function Open(token: string): seq<Form.Pair>
  {
    Form.Parse(Utf8.Decode(Base64Url.Decode(token)))
  }

  /** `Object.fromEntries(pairs)`: one key per distinct name; a later pair overrides an earlier one. */
  function FromEntries(ps: seq<Form.Pair>): (r: Decoded)
    ensures forall i :: 0 <= i < |ps| ==> ps[i].0 in r
    ensures forall k :: k in r ==> exists i :: 0 <= i < |ps| && ps[i].0 == k
    decreases |ps|
  {
    if |ps| == 0 then map[]
    else
      var init := ps[..|ps| - 1];
      assert forall i :: 0 <= i < |init| ==> init[i] == ps[i];
      FromEntries(init)[ps[|ps| - 1].0 := ps[|ps| - 1].1]
  }

  /** The form pairs `encodeCursor` appends: each key with the JSON text of its value, in field order. */
  function JsonPairs(c: Cursor): (ps: seq<Form.Pair>)
    ensures |ps| == |c|
    ensures forall i :: 0 <= i < |c| ==> ps[i] == (c[i].0, Json.Stringify(c[i].1))
  {
    seq(|c|, i requires 0 <= i < |c| => (c[i].0, Json.Stringify(c[i].1)))
  }

  /** The token of a cursor's fields. */
  function EncodeFields(c: Cursor): string
  {
    Seal(JsonPairs(c))
  }

  /** `encodeCursor({node, getCursor})`: the token depends on the node only through `getCursor(node)`. */
  function EncodeCursor<N>(node: N, getCursor: N -> Cursor): (token: string)
    ensures forall i :: 0 <= i < |token| ==> Base64Url.IsUrlSafeChar(token[i])
    ensures '=' !in token
  {
    EncodeFields(getCursor(node))
  }

  /**
   * `decodeCursor(cursor)`: never fails; the keys are exactly the names of the
   * pairs the token carries (`LaterPairWins` gives each its last value). A token
   * that is not one yields whatever pairs its bytes spell.
   */
  function DecodeCursor(token: string): (r: Decoded)
    ensures forall i :: 0 <= i < |Open(token)| ==> Open(token)[i].0 in r
    ensures forall k :: k in r ==> exists i :: 0 <= i < |Open(token)| && Open(token)[i].0 == k
  {
    FromEntries(Open(token))
  }

  // ---- lemmas ----

  /** Opening a sealed list of pairs gives back the same list. */
  lemma OpenSeal(ps: seq<Form.Pair>)
    ensures Open(Seal(ps)) == ps
  {
    var s := Form.Serialize(ps);
    Base64Url.DecodeEncode(Utf8.Encode(s));
    Utf8.DecodeEncode(s);
    Form.ParseSerialize(ps);
  }

  /** A token carries exactly one pair per cursor field, in field order, the value as JSON text. */
  lemma EncodedPairs(c: Cursor)
    ensures |Open(EncodeFields(c))| == |c|
    ensures forall i :: 0 <= i < |c| ==> Open(EncodeFields(c))[i] == (c[i].0, Json.Stringify(c[i].1))
  {
    OpenSeal(JsonPairs(c));
  }

  /** Decoding an encoded cursor maps each key to the JSON text of its last value. */
  lemma DecodeEncode(c: Cursor)
    ensures DecodeCursor(EncodeFields(c)) == FromEntries(JsonPairs(c))
  {
    OpenSeal(JsonPairs(c));
  }

  /** The decoded object `m` has exactly the keys of `c`, each mapped to the JSON text of its value. */
  predicate CarriesJsonTexts(c: Cursor, m: Decoded)
  {
    (forall i :: 0 <= i < |c| ==> c[i].0 in m && m[c[i].0] == Json.Stringify(c[i].1))
    && (forall k :: k in m ==> exists i :: 0 <= i < |c| && c[i].0 == k)
  }

  lemma JsonPairsCarried(c: Cursor)
    requires DistinctKeys(c)
    ensures CarriesJsonTexts(c, FromEntries(JsonPairs(c)))
  {
    var ps := JsonPairs(c);
    var m := FromEntries(ps);
    forall i | 0 <= i < |c|
      ensures c[i].0 in m && m[c[i].0] == Json.Stringify(c[i].1)
    {
      assert forall j :: i < j < |ps| ==> ps[j].0 != ps[i].0;
      LaterPairWins(ps, i);
    }
    forall k | k in m
      ensures exists i :: 0 <= i < |c| && c[i].0 == k
    {
      var i :| 0 <= i < |ps| && ps[i].0 == k;
      assert c[i].0 == k;
    }
  }

  /**
   * For a cursor object (distinct keys), decoding its token gives exactly its keys,
   * each mapped to the JSON text of its value: not an identity, since `"1"` comes back as `"\"1\""`.
   */
  lemma DecodeEncodeFields(c: Cursor)
    requires DistinctKeys(c)
    ensures CarriesJsonTexts(c, DecodeCursor(EncodeFields(c)))
  {
    DecodeEncode(c);
    JsonPairsCarried(c);
  }

  /** Reading each decoded text as JSON recovers the original typed value. */
  lemma DecodeThenParse(c: Cursor, i: nat)
    requires DistinctKeys(c)
    requires i < |c|
    ensures c[i].0 in DecodeCursor(EncodeFields(c))
    ensures Json.Parse(DecodeCursor(EncodeFields(c))[c[i].0]) == Some(c[i].1)
  {
    DecodeEncodeFields(c);
    var t := DecodeCursor(EncodeFields(c))[c[i].0];
    assert t == Json.Stringify(c[i].1);
    Json.ParseStringify(c[i].1);
  }

  /** Different cursors have different tokens; in particular the string `"1"` and the number `1` do. */
  lemma EncodeInjective(c: Cursor, d: Cursor)
    requires EncodeFields(c) == EncodeFields(d)
    ensures c == d
  {
    EncodedPairs(c);
    EncodedPairs(d);
    forall i | 0 <= i < |c|
      ensures c[i] == d[i]
    {
      Json.StringifyInjective(c[i].1, d[i].1);
    }
  }

  /** Decoding never fails: the empty token is the empty cursor. */
  lemma DecodeEmpty()
    ensures DecodeCursor("") == map[]
  {
  }

  /** A key repeated in the payload keeps its last value. */
  lemma {:induction false} LaterPairWins(ps: seq<Form.Pair>, i: nat)
    requires i < |ps|
    requires forall j :: i < j < |ps| ==> ps[j].0 != ps[i].0
    ensures FromEntries(ps)[ps[i].0] == ps[i].1
    decreases |ps|
  {
    if i < |ps| - 1 {
      var init := ps[..|ps| - 1];
      assert init[i] == ps[i];
      LaterPairWins(init, i);
    }
  }

  /** A token carrying a key twice decodes to the later value; every name in the payload is a key. */
  lemma DecodeLaterWins(ps: seq<Form.Pair>, i: nat)
    requires i < |ps|
    requires forall j :: i < j < |ps| ==> ps[j].0 != ps[i].0
    ensures forall j :: 0 <= j < |ps| ==> ps[j].0 in DecodeCursor(Seal(ps))
    ensures DecodeCursor(Seal(ps))[ps[i].0] == ps[i].1
  {
    OpenSeal(ps);
    LaterPairWins(ps, i);
  }

  /** Nodes with the same cursor fields have the same token, whatever else they hold. */
  lemma TokenDependsOnlyOnFields<N>(a: N, b: N, getCursor: N -> Cursor)
    requires getCursor(a) == getCursor(b)
    ensures EncodeCursor(a, getCursor) == EncodeCursor(b, getCursor)
  {
  }
}
