/** The parts of JavaScript's built-in semantics the table relies on. */
module Js {

  function Min(a: int, b: int): int {
    if a <= b then a else b
  }

  function Max(a: int, b: int): int {
    if a <= b then b else a
  }

  /** The position a `slice` bound stands for: a negative bound counts from the end, and the result is clamped to `[0, len]`. */
  function ResolveBound(len: nat, bound: int): (k: nat)
    ensures k <= len
  {
    if bound < 0 then Max(len + bound, 0) else Min(bound, len)
  }

  /**
    `Array.prototype.slice(start, end)` as the ECMAScript language
    specification defines it: a negative bound counts from the end, every
    bound is clamped to `[0, |s|]`, and crossed bounds give an empty array.
  */
  function Slice<T>(s: seq<T>, start: int, end: int): (r: seq<T>)
    ensures |r| <= |s|
    ensures |r| == Max(0, ResolveBound(|s|, end) - ResolveBound(|s|, start))
    ensures forall i :: 0 <= i < |r| ==> ResolveBound(|s|, start) + i < |s| && r[i] == s[ResolveBound(|s|, start) + i]
    ensures 0 <= start ==> forall i :: 0 <= i < |r| ==> start + i < |s| && r[i] == s[start + i]
    ensures 0 <= start <= end ==> |r| == Max(0, Min(end, |s|) - start)
    ensures start < 0 ==> forall i :: 0 <= i < |r| ==> Max(|s| + start, 0) + i < |s| && r[i] == s[Max(|s| + start, 0) + i]
  {
    var from := ResolveBound(|s|, start);
    var to := ResolveBound(|s|, end);
    if from < to then s[from..to] else []
  }
}
