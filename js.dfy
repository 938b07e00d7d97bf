/** The JavaScript built-ins that the chart's data pipeline relies on, over exact
    reals: `null`/`undefined`, the truncation `Array.prototype.slice` applies to its
    arguments, `Math.max`/`Math.min` and `Math.ceil`. */
module Js {

  /** A value that may be `null` (or `undefined`). */
  datatype Option<+T> = None | Some(value: T)

  function MaxReal(a: real, b: real): (m: real)
    ensures m >= a && m >= b && (m == a || m == b)
  {
    if a >= b then a else b
  }

  function MinReal(a: real, b: real): (m: real)
    ensures m <= a && m <= b && (m == a || m == b)
  {
    if a <= b then a else b
  }

  function Max(a: int, b: int): int { if a >= b then a else b }

  function Min(a: int, b: int): int { if a <= b then a else b }

  /** ToIntegerOrInfinity on a finite number: truncation toward zero. */
  function Trunc(x: real): (n: int)
    ensures 0.0 <= x ==> n as real <= x < n as real + 1.0
    ensures x < 0.0 ==> n as real - 1.0 < x <= n as real
  {
    if x >= 0.0 then x.Floor else -((-x).Floor)
  }

  /** How `slice` turns an argument into a position of a sequence of length `len`:
      truncate, count a negative value from the end, clamp to `[0, len]`. */
  function RelativeIndex(x: real, len: nat): (k: nat)
    ensures k <= len
    ensures 0.0 <= x ==> k == Min(Trunc(x), len)
  {
    var n := Trunc(x);
    if n < 0 then (if len + n < 0 then 0 else len + n)
    else if n < len then n else len
  }

  /** `s.slice(start, end)`: the elements from position `start` up to (not including)
      position `end`, empty when `end` does not lie after `start`. */
  function Slice<T>(s: seq<T>, start: real, end: real): (r: seq<T>)
    ensures |r| == Max(0, RelativeIndex(end, |s|) - RelativeIndex(start, |s|))
    ensures forall j :: 0 <= j < |r| ==> r[j] == s[RelativeIndex(start, |s|) + j]
  {
    var from := RelativeIndex(start, |s|);
    var to := RelativeIndex(end, |s|);
    if from < to then s[from..to] else []
  }

  /** `Math.ceil` on a finite number. */
  function Ceil(x: real): (c: int)
    ensures x <= c as real < x + 1.0
  {
    -((-x).Floor)
  }
}
