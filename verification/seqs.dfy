/** Generic operations on sequences shared by the parse loop and the output loop. */
module Seqs {
  /** f applied to every element, in order. */
  function Map<A, B>(xs: seq<A>, f: A -> B): (ys: seq<B>)
    ensures |ys| == |xs|
    ensures forall i :: 0 <= i < |xs| ==> ys[i] == f(xs[i])
  {
    seq(|xs|, i requires 0 <= i < |xs| => f(xs[i]))
  }

  /** Mapping a permutation of xs covers the image of every element of xs. */
  lemma MapCovers<A, B>(xs: seq<A>, ys: seq<A>, f: A -> B)
    requires multiset(xs) == multiset(ys)
    ensures forall x :: x in xs ==> f(x) in Map(ys, f)
  {
    forall x | x in xs
      ensures f(x) in Map(ys, f)
    {
      assert x in multiset(ys);
      var i :| 0 <= i < |ys| && ys[i] == x;
      assert Map(ys, f)[i] == f(x);
    }
  }

  /** part stands in whole from position at. */
  predicate Placed<A(==)>(whole: seq<A>, at: nat, part: seq<A>) {
    at + |part| <= |whole| && whole[at..at + |part|] == part
  }

  /** A part placed in the second half of a concatenation is placed in the whole, shifted
      by the length of the first half. */
  lemma PlacedAfter<A>(whole: seq<A>, first: seq<A>, rest: seq<A>, off: nat, pos: nat, part: seq<A>)
    requires whole == first + rest
    requires Placed(rest, off, part)
    requires pos == |first| + off
    ensures Placed(whole, pos, part)
  {
    assert whole[pos..pos + |part|] == rest[off..off + |part|];
  }

  /** A part of a placed piece is placed in the whole, at the sum of the offsets. */
  lemma PlacedWithin<A>(whole: seq<A>, off: nat, piece: seq<A>, at: nat, part: seq<A>)
    requires Placed(whole, off, piece)
    requires Placed(piece, at, part)
    ensures Placed(whole, off + at, part)
  {
    forall i | 0 <= i < |part|
      ensures whole[off + at..off + at + |part|][i] == part[i]
    {
      assert whole[off..off + |piece|][at + i] == piece[at + i];
      assert piece[at..at + |part|][i] == part[i];
    }
  }

  /** The middle of a concatenation of three stands after the first. */
  lemma PlacedMiddle<A>(pre: seq<A>, mid: seq<A>, post: seq<A>)
    ensures Placed(pre + mid + post, |pre|, mid)
  {
    assert (pre + mid + post)[|pre|..|pre| + |mid|] == mid;
  }
}
