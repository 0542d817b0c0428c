/** Facts about multiples that two components need. */
module Arithmetic {

  /** The only multiple of k strictly between -k and k is 0. */
  lemma NoMultipleBetween(j: int, k: int)
    requires k >= 1 && -k < j * k < k
    ensures j == 0
  {
  }
}
