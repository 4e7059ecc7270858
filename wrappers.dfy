/** The optional value used for every field that may be absent, and the
    one fact about sequences the inductive proofs share. */
module Wrappers {

  datatype Option<+T> = None | Some(value: T)

  /** Concatenation regroups freely; stated once so that induction steps
      can call it instead of searching for it. */
  lemma SeqAssoc<T>(x: seq<T>, y: seq<T>, z: seq<T>)
    ensures x + (y + z) == (x + y) + z
  {
  }
}
