/**
 * `JSON.stringify` of a cursor value, as section 7 of RFC 8259 and ECMA-262's
 * `QuoteJSONString` write strings, together with the matching reader for the
 * same texts, which shows that the text keeps the value's type: the string
 * `"1"` and the number `1` are written differently.
 */
module Json {
  import opened Wrappers
  import opened CursorTypes

  /** How `JSON.stringify` writes one character inside a string. */
  function EscapeChar(c: char): (r: string)
    ensures |r| > 0
  {
    if c == '"' then "\\\""
    else if c == '\\' then "\\\\"
    else if c == '\U{8}' then "\\b"
    else if c == '\t' then "\\t"
    else if c == '\n' then "\\n"
    else if c == '\U{C}' then "\\f"
    else if c == '\r' then "\\r"
    else if (c as int) < 0x20 then "\\u00" + [DigitCode(c as int / 16, false) as char, DigitCode(c as int % 16, false) as char]
    else [c]
  }

  function Escape(s: string): string
    decreases |s|
  {
    if |s| == 0 then "" else EscapeChar(s[0]) + Escape(s[1..])
  }

  /** `JSON.stringify(v)`. */
  function Stringify(v: Value): (t: string)
    ensures |t| > 0
  {
    match v
    case Str(s) => "\"" + Escape(s) + "\""
    case Num(n) => NumberText(n)
    case Bool(b) => if b then "true" else "false"
  }

  // ---- reading JSON text back ----

  /** The value of four hexadecimal digits, if they are four hexadecimal digits. */
  function Hex4(s: string): (r: Option<int>)
    requires |s| == 4
    ensures r.Some? ==> 0 <= r.value < 0x10000
  {
    match (DigitValue(s[0] as int), DigitValue(s[1] as int), DigitValue(s[2] as int), DigitValue(s[3] as int))
    case (Some(a), Some(b), Some(c), Some(d)) =>
      assert 0 <= a < 16 && 0 <= b < 16 && 0 <= c < 16 && 0 <= d < 16;
      Some(((a * 16 + b) * 16 + c) * 16 + d)
    case _ => None
  }

  /** The character a two-character escape such as `\n` stands for. */
  function SimpleEscape(e: char): Option<char>
  {
    if e == '"' then Some('"') else if e == '\\' then Some('\\') else if e == '/' then Some('/')
    else if e == 'b' then Some('\U{8}') else if e == 'f' then Some('\U{C}') else if e == 'n' then Some('\n')
    else if e == 'r' then Some('\r') else if e == 't' then Some('\t') else None
  }

  /** A character in front of a string that may have failed to read. */
  function Prepend(c: char, r: Option<string>): Option<string>
  {
    match r
    case Some(t) => Some([c] + t)
    case None => None
  }

  /** The characters of a JSON string body (between its quotes), undoing escapes. */
  function Unescape(s: string): Option<string>
    decreases |s|
  {
    if |s| == 0 then Some("")
    else if s[0] == '"' || (s[0] as int) < 0x20 then None
    else if s[0] != '\\' then Prepend(s[0], Unescape(s[1..]))
    else if |s| < 2 then None
    else match SimpleEscape(s[1])
      case Some(c) => Prepend(c, Unescape(s[2..]))
      case None =>
        if s[1] == 'u' && |s| >= 6 then
          match Hex4(s[2..6])
          case Some(u) => if u < 0xD800 || 0xE000 <= u then Prepend(u as char, Unescape(s[6..])) else None
          case None => None
        else None
  }

  /** The number spelled by decimal digits. */
  function DigitsValue(s: string): nat
    requires forall i :: 0 <= i < |s| ==> '0' <= s[i] <= '9'
    decreases |s|
  {
    if |s| == 0 then 0 else DigitsValue(s[..|s| - 1]) * 10 + DigitValue(s[|s| - 1] as int).value
  }

  predicate IsDigits(s: string)
  {
    |s| > 0 && (forall i :: 0 <= i < |s| ==> '0' <= s[i] <= '9') && (s[0] == '0' ==> |s| == 1)
  }

  /** Reads back the texts `Stringify` writes: a string, an integer or a boolean; `None` for any other text. */
  function Parse(t: string): (r: Option<Value>)
  {
    if t == "true" then Some(Bool(true))
    else if t == "false" then Some(Bool(false))
    else if |t| >= 2 && t[0] == '"' && t[|t| - 1] == '"' then
      match Unescape(t[1..|t| - 1])
      case Some(s) => Some(Str(s))
      case None => None
    else if |t| > 0 && t[0] == '-' && IsDigits(t[1..]) && t != "-0" then Some(Num(-(DigitsValue(t[1..]) as int)))
    else if IsDigits(t) then Some(Num(DigitsValue(t)))
    else None
  }

  // ---- lemmas ----

  /** The characters `JSON.stringify` writes as a backslash and one letter or sign. */
  predicate HasShortEscape(c: char)
  {
    c == '"' || c == '\\' || c == '\U{8}' || c == '\t' || c == '\n' || c == '\U{C}' || c == '\r'
  }

  lemma UnescapeShort(c: char, rest: string)
    requires HasShortEscape(c)
    ensures Unescape(EscapeChar(c) + rest) == Prepend(c, Unescape(rest))
  {
    var s := EscapeChar(c) + rest;
    assert |EscapeChar(c)| == 2 && s[0] == '\\';
    assert SimpleEscape(s[1]) == Some(c);
    assert s[2..] == rest;
  }

  lemma UnescapeHex(c: char, rest: string)
    requires (c as int) < 0x20 && !HasShortEscape(c)
    ensures Unescape(EscapeChar(c) + rest) == Prepend(c, Unescape(rest))
  {
    var n := c as int;
    var s := EscapeChar(c) + rest;
    assert s[0] == '\\' && s[1] == 'u';
    assert SimpleEscape(s[1]) == None;
    assert s[2..6] == "00" + [DigitCode(n / 16, false) as char, DigitCode(n % 16, false) as char];
    assert Hex4(s[2..6]) == Some(n);
    assert s[6..] == rest;
  }

  /** Reading back the escape of one character gives that character. */
  lemma UnescapeChar(c: char, rest: string)
    ensures Unescape(EscapeChar(c) + rest) == Prepend(c, Unescape(rest))
  {
    if HasShortEscape(c) {
      UnescapeShort(c, rest);
    } else if (c as int) < 0x20 {
      UnescapeHex(c, rest);
    } else {
      assert EscapeChar(c) == [c];
      assert (EscapeChar(c) + rest)[1..] == rest;
    }
  }

  /** Unescaping undoes escaping. */
  lemma {:induction false} UnescapeEscape(s: string)
    ensures Unescape(Escape(s)) == Some(s)
    decreases |s|
  {
    if |s| > 0 {
      UnescapeChar(s[0], Escape(s[1..]));
      UnescapeEscape(s[1..]);
      assert Unescape(Escape(s)) == Some([s[0]] + s[1..]);
      assert [s[0]] + s[1..] == s;
    }
  }

  lemma {:induction false} DigitsValueDecimal(n: nat)
    ensures DigitsValue(DecimalText(n)) == n
    decreases n
  {
    if n >= 10 {
      var s := DecimalText(n);
      assert s[..|s| - 1] == DecimalText(n / 10);
      DigitsValueDecimal(n / 10);
    }
  }

  lemma DecimalIsDigits(n: nat)
    ensures IsDigits(DecimalText(n))
  {
  }

  lemma ParseQuoted(s: string)
    ensures Parse(Stringify(Str(s))) == Some(Str(s))
  {
    var t := Stringify(Str(s));
    assert t[0] == '"';
    assert t != "true" && t != "false";
    assert t[1..|t| - 1] == Escape(s);
    UnescapeEscape(s);
  }

  lemma ParseNegative(n: int)
    requires n < 0
    ensures Parse(Stringify(Num(n))) == Some(Num(n))
  {
    var t := Stringify(Num(n));
    var d := DecimalText(-n);
    assert t == "-" + d;
    DecimalIsDigits(-n);
    DigitsValueDecimal(-n);
    ParseMinus(d);
  }

  /** A minus sign before digits other than `0` reads as the negated number. */
  lemma ParseMinus(d: string)
    requires IsDigits(d) && d != "0"
    ensures Parse("-" + d) == Some(Num(-(DigitsValue(d) as int)))
  {
    var t := "-" + d;
    assert t[1..] == d;
    assert t[0] == '-' && t != "-0";
    assert t != "true" && t != "false";
  }

  lemma ParseNatural(n: nat)
    ensures Parse(Stringify(Num(n))) == Some(Num(n))
  {
    var t := Stringify(Num(n));
    DecimalIsDigits(n);
    DigitsValueDecimal(n);
    assert '0' <= t[0] <= '9';
  }

  lemma ParseNumber(n: int)
    ensures Parse(Stringify(Num(n))) == Some(Num(n))
  {
    if n < 0 {
      ParseNegative(n);
    } else {
      ParseNatural(n);
    }
  }

  /** Reading the JSON text of a value gives back the value, type included. */
  lemma ParseStringify(v: Value)
    ensures Parse(Stringify(v)) == Some(v)
  {
    match v
    case Str(s) => ParseQuoted(s);
    case Num(n) => ParseNumber(n);
    case Bool(b) =>
  }

  /** Different values have different JSON texts. */
  lemma StringifyInjective(v: Value, w: Value)
    ensures Stringify(v) == Stringify(w) ==> v == w
  {
    ParseStringify(v);
    ParseStringify(w);
  }
}
