/**
 * Scalar and array arguments: every conversion and correction function works
 * on one value or, element by element, on a sequence of them, giving a
 * sequence of the same length.
 */
module Elementwise {

  /** `f` applied to each element, in order. */
  function Map<T, U>(f: T -> U, xs: seq<T>): (ys: seq<U>)
    ensures |ys| == |xs|
    ensures forall i :: 0 <= i < |xs| ==> ys[i] == f(xs[i])
  {
    if xs == [] then [] else [f(xs[0])] + Map(f, xs[1..])
  }
}
