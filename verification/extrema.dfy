/** The larger of two lengths, shared by the run measures of binary words and of real sequences. */
module Extrema {

  /** `max(a, b)`: the larger of the two. */
  function Max(a: nat, b: nat): nat
  {
    if a < b then b else a
  }
}
