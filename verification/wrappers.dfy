/** Small shared vocabulary: optional values and bytes. */
module Wrappers {

  /** A value that may be absent, standing for JavaScript's `undefined`/`null`. */
  datatype Option<+T> = None | Some(value: T)

  /** An octet, as stored in a Node `Buffer`. */
  type byte = b: int | 0 <= b < 256

  /** The value of a digit's character code: `0-9`, and `A-F` or `a-f` as 10 to 15. */
  function DigitValue(c: int): (r: Option<int>)
    ensures r.Some? ==> 0 <= r.value < 16
  {
    if 0x30 <= c <= 0x39 then Some(c - 0x30)
    else if 0x41 <= c <= 0x46 then Some(c - 0x41 + 10)
    else if 0x61 <= c <= 0x66 then Some(c - 0x61 + 10)
    else None
  }

  /** The character code of the digit for `d`, upper- or lower-case past 9. */
  function DigitCode(d: int, upper: bool): (c: int)
    requires 0 <= d < 16
    ensures 0x30 <= c < 0x80
    ensures DigitValue(c) == Some(d)
  {
    if d < 10 then 0x30 + d else (if upper then 0x41 else 0x61) + (d - 10)
  }

  /** The last element of a sequence, if any (`xs[xs.length - 1]` in JavaScript). */
  function Last<T>(xs: seq<T>): (r: Option<T>)
    ensures r.Some? <==> |xs| > 0
    ensures r.Some? ==> r.value == xs[|xs| - 1]
  {
    if |xs| == 0 then None else Some(xs[|xs| - 1])
  }

  /**
   * `xs.slice(0, end)` of JavaScript: a negative `end` counts back from the end
   * of the array, and an `end` past the end stops there.
   */
  function SliceTo<T>(xs: seq<T>, end: int): (r: seq<T>)
    ensures |r| <= |xs|
    ensures r == xs[..|r|]
    ensures 0 <= end ==> |r| == if end < |xs| then end else |xs|
    ensures end < 0 ==> |r| == if |xs| + end > 0 then |xs| + end else 0
  {
    if end < 0 then (if |xs| + end > 0 then xs[..|xs| + end] else [])
    else if end < |xs| then xs[..end]
    else xs
  }
}
