/** Small facts about sequence concatenation, stated generically so that the
    solver proves them once, away from the strings they are used on. */
module Seqs {
  lemma ConcatAssociative<T>(a: seq<T>, b: seq<T>, c: seq<T>)
    ensures a + b + c == a + (b + c)
  {
  }

  lemma ConcatEmpty<T>(a: seq<T>)
    ensures a + [] == a == [] + a
  {
  }
}
