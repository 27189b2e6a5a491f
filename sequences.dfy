/** Facts about sequences shared by the loops of the model. */
module Sequences {
  /** Concatenation regroups freely; loops that extend an accumulator rely on it. */
  lemma AppendAssociative<T>(a: seq<T>, b: seq<T>, c: seq<T>)
    ensures (a + b) + c == a + (b + c)
  {
  }
}
