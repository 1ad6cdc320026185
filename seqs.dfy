/**
 * Regrouping lemmas for sequence concatenation, stated once for any element
 * type. Dafny knows these equations, but calling a lemma over plain
 * variables keeps the (large) terms they are applied to, such as encodings
 * and stripped lines, from being unfolded while the equation is proved.
 */
module Seqs {
  lemma ConcatAssoc<T>(a: seq<T>, b: seq<T>, c: seq<T>)
    ensures (a + b) + c == a + (b + c)
  {
  }

  lemma Regroup<T>(a: seq<T>, b: seq<T>, c: seq<T>, d: seq<T>, e: seq<T>)
    ensures a + (b + c + d) + e == (a + b) + c + (d + e)
  {
  }
}
