// Sequence helpers shared by the concatenating operations.

module Seqs {

  /** The concatenation of a sequence of sequences, in order. */
  function Concat<T>(xs: seq<seq<T>>): seq<T>
  {
    if xs == [] then [] else Concat(xs[..|xs| - 1]) + xs[|xs| - 1]
  }

  lemma {:induction false} ConcatAppend<T>(xs: seq<seq<T>>, ys: seq<seq<T>>)
    ensures Concat(xs + ys) == Concat(xs) + Concat(ys)
  {
    if ys == [] {
      assert xs + ys == xs;
    } else {
      var zs := xs + ys;
      assert zs[..|zs| - 1] == xs + ys[..|ys| - 1];
      ConcatAppend(xs, ys[..|ys| - 1]);
    }
  }

  lemma ConcatPrefix<T>(xs: seq<seq<T>>, i: nat)
    requires i < |xs|
    ensures Concat(xs[..i + 1]) == Concat(xs[..i]) + xs[i]
  {
    assert xs[..i + 1][..i] == xs[..i];
  }

  /** One-element sequences, in order: the items of an element-wise extend. */
  function Singletons<T>(xs: seq<T>): (r: seq<seq<T>>)
    ensures |r| == |xs|
    ensures forall i :: 0 <= i < |xs| ==> r[i] == [xs[i]]
  {
    if xs == [] then [] else Singletons(xs[..|xs| - 1]) + [[xs[|xs| - 1]]]
  }

  lemma {:induction false} ConcatSingletons<T>(xs: seq<T>)
    ensures Concat(Singletons(xs)) == xs
  {
    if xs != [] {
      ConcatSingletons(xs[..|xs| - 1]);
      assert Singletons(xs)[..|xs| - 1] == Singletons(xs[..|xs| - 1]);
    }
  }
}
