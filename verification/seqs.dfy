/** Facts about sequences that several modules use. */
module Seqs {

  /** Concatenation regroups freely; calling this hands the solver the
      equality for the three sequences at hand. */
  lemma ConcatAssoc<T>(a: seq<T>, b: seq<T>, c: seq<T>)
    ensures a + (b + c) == (a + b) + c
  {
  }
}
