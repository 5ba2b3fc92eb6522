/** The few JavaScript number and array primitives the portfolio viewer's
    core relies on, written out over Dafny's unbounded integers.

    Dafny's `/` and `%` are Euclidean; JavaScript's `%` truncates toward
    zero, so its remainder takes the sign of the dividend. Both are kept
    apart here so that the quarter arithmetic can use exactly the operator
    the program uses. */
module JsPrim {

  /** `Math.abs` on an integer. */
  function Abs(x: int): (r: nat)
    ensures r == x || r == -x
  {
    if x < 0 then -x else x
  }

  /** JavaScript's `a % 4`, the only remainder the program takes: the
      remainder of the division truncated toward zero. It has the sign of the
      dividend and agrees with Dafny's floored remainder `a % 4`, or falls
      short of it by exactly 4 when the dividend is negative and not a
      multiple of 4. */
  function JsRem4(a: int): (r: int)
    ensures -4 < r < 4
    ensures a >= 0 ==> r >= 0
    ensures a <= 0 ==> r <= 0
    ensures r == a % 4 || r == a % 4 - 4
  {
    if a >= 0 then a % 4 else -((-a) % 4)
  }

  /** `Math.ceil(x / 4)` for a non-negative integer `x`: the least count `r`
      of fours with `x <= 4 * r`. */
  function JsCeilDiv4(x: nat): (r: nat)
    ensures 4 * r - 4 < x <= 4 * r
  {
    if x % 4 == 0 then x / 4 else x / 4 + 1
  }

  /** The relative-index clamp of `Array.prototype.slice`: a negative index
      counts from the end, and the result is clamped into `0 .. len`. */
  function RelativeIndex(k: int, len: nat): (r: nat)
    ensures r <= len
  {
    if k < 0 then (if len + k < 0 then 0 else len + k)
    else if k < len then k else len
  }

  /** `s.slice(start, end)`: the elements from the clamped start up to, but
      not including, the clamped end, and nothing when they cross. */
  function JsSlice<T>(s: seq<T>, start: int, end: int): (r: seq<T>)
    ensures var from, to := RelativeIndex(start, |s|), RelativeIndex(end, |s|);
      && |r| == (if from < to then to - from else 0)
      && forall j :: 0 <= j < |r| ==> r[j] == s[from + j]
  {
    var from, to := RelativeIndex(start, |s|), RelativeIndex(end, |s|);
    if from < to then s[from..to] else []
  }
}
