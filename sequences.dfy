/** Facts about sequences shared by the other modules. */
module Sequences {
  /** Concatenation is associative; stated once for every element type so
      that a proof can regroup a trace or a list where it needs to. */
  lemma Assoc<T>(a: seq<T>, b: seq<T>, c: seq<T>)
    ensures a + b + c == a + (b + c)
  {
  }
}
