/** Sequences built element by element, as a loop over a list does. */
module Seqs {
  /** `[f(x) for x in xs]`, built from the front, one element per step. */
  function Map<A, B>(f: A -> B, xs: seq<A>): (ys: seq<B>)
    ensures |ys| == |xs|
    decreases |xs|
  {
    if xs == [] then [] else Map(f, xs[..|xs| - 1]) + [f(xs[|xs| - 1])]
  }

  /** Each element of the result is `f` of the element at the same place. */
  lemma {:induction false} MapAt<A, B>(f: A -> B, xs: seq<A>, i: nat)
    requires i < |xs|
    ensures Map(f, xs)[i] == f(xs[i])
    decreases |xs|
  {
    var front := xs[..|xs| - 1];
    if i < |front| {
      MapAt(f, front, i);
    }
  }
}
