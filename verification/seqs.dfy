/** Regrouping facts about sequence concatenation. */
module Seqs {
  /** Moving the head of `b` to the end of `a` keeps the concatenation. */
  lemma Regroup<T>(a: seq<T>, b: seq<T>)
    requires b != []
    ensures a + [b[0]] + b[1..] == a + b
  {
    assert a + [b[0]] + b[1..] == a + ([b[0]] + b[1..]);
  }
}
