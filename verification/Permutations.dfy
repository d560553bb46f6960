/** What two lists with the same members share. */
module Permutations {

  /** A permutation holds the first element somewhere, and the rest around it. */
  lemma TakeOut<T>(xs: seq<T>, ys: seq<T>) returns (before: seq<T>, after: seq<T>)
    requires multiset(xs) == multiset(ys) && xs != []
    ensures ys == before + [xs[0]] + after
    ensures multiset(xs[1..]) == multiset(before + after)
  {
    before, after := Split(ys, xs[0]) by {
      assert xs[0] in multiset(xs);
    }
    Head(xs);
  }

  lemma Head<T>(xs: seq<T>)
    requires xs != []
    ensures multiset(xs[1..]) == multiset(xs) - multiset{xs[0]}
  {
    assert xs == [xs[0]] + xs[1..];
  }

  lemma Split<T>(ys: seq<T>, x: T) returns (before: seq<T>, after: seq<T>)
    requires x in multiset(ys)
    ensures ys == before + [x] + after
  {
    var i :| 0 <= i < |ys| && ys[i] == x;
    before, after := ys[..i], ys[i + 1..];
  }

}
