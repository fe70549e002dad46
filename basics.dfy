/** Small shared vocabulary: a nullable value and a repeated event list. */
module Basics {

  /** A value that may be absent; the components use `null` for "absent". */
  datatype Option<+T> = None | Some(value: T)

  /** `n` copies of `x`, in a row: the same event delivered `n` times. */
  function Repeat<T>(x: T, n: nat): (xs: seq<T>)
    ensures |xs| == n
    ensures forall k :: 0 <= k < |xs| ==> xs[k] == x
  {
    if n == 0 then [] else [x] + Repeat(x, n - 1)
  }
}
