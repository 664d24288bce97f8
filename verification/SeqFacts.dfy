/** Regrouping concatenations: consing onto an append, and associativity of
    append. */
module SeqFacts {

  lemma ConsAppend<T>(x: T, xs: seq<T>, ys: seq<T>)
    ensures [x] + (xs + ys) == ([x] + xs) + ys
  {
  }

  lemma AppendAssoc<T>(xs: seq<T>, ys: seq<T>, zs: seq<T>)
    ensures (xs + ys) + zs == xs + (ys + zs)
  {
  }
}
