/** Counting equal values: the size of each group that `groupby(...).size()`,
    `resample(...).size()` and `value_counts()` report. */
module Tally {

  /** The number of times `v` occurs in `xs`. */
  function Occurrences(xs: seq<int>, v: int): (n: nat)
    ensures n <= |xs|
    ensures n == 0 <==> v !in xs
  {
    if xs == [] then 0 else (if xs[0] == v then 1 else 0) + Occurrences(xs[1..], v)
  }

  /** The number of elements of `xs` in `[lo, hi)`. */
  function CountInRange(xs: seq<int>, lo: int, hi: int): nat
  {
    if xs == [] then 0 else (if lo <= xs[0] < hi then 1 else 0) + CountInRange(xs[1..], lo, hi)
  }

  /** Widening the range by one value adds that value's occurrences. */
  lemma {:induction false} CountInRangeStep(xs: seq<int>, lo: int, hi: int)
    requires lo <= hi
    ensures CountInRange(xs, lo, hi + 1) == CountInRange(xs, lo, hi) + Occurrences(xs, hi)
  {
    if xs != [] {
      CountInRangeStep(xs[1..], lo, hi);
    }
  }

  /** A range holding every element counts them all. */
  lemma {:induction false} CountInRangeAll(xs: seq<int>, lo: int, hi: int)
    requires forall x :: x in xs ==> lo <= x < hi
    ensures CountInRange(xs, lo, hi) == |xs|
  {
    if xs != [] {
      assert xs[0] in xs;
      assert forall x :: x in xs[1..] ==> x in xs;
      CountInRangeAll(xs[1..], lo, hi);
    }
  }

  /** In a strictly ascending sequence every value occurs at most once. */
  lemma {:induction false} OccurrencesAscending(xs: seq<int>, v: int)
    requires forall i, j :: 0 <= i < j < |xs| ==> xs[i] < xs[j]
    ensures Occurrences(xs, v) == if v in xs then 1 else 0
  {
    if xs != [] {
      OccurrencesAscending(xs[1..], v);
      assert v in xs <==> v == xs[0] || v in xs[1..];
    }
  }
}
