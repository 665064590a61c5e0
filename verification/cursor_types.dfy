/**
 * The values a cursor field may hold (`CursorValueType` in `src/cursor/types.ts`)
 * and JavaScript's text conversions of them.
 */
module CursorTypes {
  import opened Wrappers

  /**
   * `string | number | boolean`. Numbers are modelled as integers: the cursors of
   * this library carry identifiers, offsets and rankings.
   */
  datatype Value = Str(s: string) | Num(n: int) | Bool(b: bool)

  /** One field of a cursor object: its key and its value. */
  type Field = (string, Value)

  /**
   * A cursor object, as its fields in the order `for...in` enumerates them.
   * A JavaScript object cannot repeat a key; `DistinctKeys` says so when needed.
   */
  type Cursor = seq<Field>

  predicate DistinctKeys<V>(fields: seq<(string, V)>)
  {
    forall i, j :: 0 <= i < j < |fields| ==> fields[i].0 != fields[j].0
  }

  function DigitChar(d: int): (c: char)
    requires 0 <= d < 10
    ensures '0' <= c <= '9'
  {
    DigitCode(d, false) as char
  }

  /** The decimal digits of a natural number, without leading zeros. */
  function DecimalText(n: nat): (s: string)
    ensures |s| > 0
    ensures forall i :: 0 <= i < |s| ==> '0' <= s[i] <= '9'
    ensures s[0] == '0' ==> n == 0
    decreases n
  {
    if n < 10 then [DigitChar(n)] else DecimalText(n / 10) + [DigitChar(n % 10)]
  }

  /** `Number.prototype.toString()` of an integer. */
  function NumberText(n: int): (s: string)
    ensures |s| > 0
    ensures s[0] == '-' <==> n < 0
  {
    if n < 0 then "-" + DecimalText(-n) else DecimalText(n)
  }

  /** `String(v)`: the text `URLSearchParams.append` stores for a value. */
  function ToText(v: Value): string
  {
    match v
    case Str(s) => s
    case Num(n) => NumberText(n)
    case Bool(b) => if b then "true" else "false"
  }
}
