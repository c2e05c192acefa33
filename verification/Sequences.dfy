/** A sequence of one element over and over. */
module Sequences {
  function Repeat<T>(x: T, n: int): (s: seq<T>)
    ensures |s| == (if n > 0 then n else 0) && forall i :: 0 <= i < |s| ==> s[i] == x
  {
    if n <= 0 then [] else [x] + Repeat(x, n - 1)
  }
}
