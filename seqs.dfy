/** Sequence helpers shared by the scrapers: mapping a builder over the containers of a
    page, and summing lengths. */
module Seqs {

  /** `[f(x) for x in xs]`. */
  function MapSeq<C, R>(xs: seq<C>, f: C -> R): (ys: seq<R>)
    ensures |ys| == |xs|
    ensures forall i :: 0 <= i < |xs| ==> ys[i] == f(xs[i])
  {
    seq(|xs|, i requires 0 <= i < |xs| => f(xs[i]))
  }

  /** Appending one element to the input appends its image to the output. */
  lemma MapSeqSnoc<C, R>(xs: seq<C>, x: C, f: C -> R)
    ensures MapSeq(xs + [x], f) == MapSeq(xs, f) + [f(x)]
  {
    assert (xs + [x])[..|xs + [x]| - 1] == xs;
  }

  /** Extending a prefix by one element extends its image by one row: what a loop that
      appends one row per container keeps. */
  lemma MapSeqPrefix<C, R>(xs: seq<C>, i: nat, f: C -> R)
    requires i < |xs|
    ensures MapSeq(xs[..i + 1], f) == MapSeq(xs[..i], f) + [f(xs[i])]
  {
    assert xs[..i + 1][..i] == xs[..i];
  }
}
