/** Positional helpers on sequences shared by the three scripts. */
module Seqs {

  /** `list.index` and `np.argmax` over a boolean column: the first position holding `x`. */
  function FirstIndex<T(==)>(xs: seq<T>, x: T): (i: nat)
    requires x in xs
    ensures i < |xs| && xs[i] == x
    ensures forall j :: 0 <= j < i ==> xs[j] != x
  {
    if xs[0] == x then 0 else 1 + FirstIndex(xs[1..], x)
  }

  /** A position holding `x` with no earlier one holding it is the first index of `x`. */
  lemma FirstIndexIs<T>(xs: seq<T>, x: T, i: nat)
    requires i < |xs| && xs[i] == x
    requires forall j :: 0 <= j < i ==> xs[j] != x
    ensures x in xs && FirstIndex(xs, x) == i
  {
  }

  /** How many positions of `xs` hold `x`. */
  function Count<T(==)>(xs: seq<T>, x: T): (n: nat)
    ensures n <= |xs|
  {
    if |xs| == 0 then 0
    else
      Count(xs[..|xs| - 1], x) + (if xs[|xs| - 1] == x then 1 else 0)
  }

  lemma CountAppend<T>(xs: seq<T>, y: T, x: T)
    ensures Count(xs + [y], x) == Count(xs, x) + (if y == x then 1 else 0)
  {
    assert (xs + [y])[..|xs|] == xs;
  }

  /** `x` occurs nowhere exactly when its count is zero. */
  lemma {:induction false} CountZero<T>(xs: seq<T>, x: T)
    ensures Count(xs, x) == 0 <==> x !in xs
  {
    if |xs| > 0 {
      var init := xs[..|xs| - 1];
      assert xs == init + [xs[|xs| - 1]];
      CountZero(init, x);
    }
  }

  /** Two equally long sequences that hold `a` and `b` at the same positions hold them equally often. */
  lemma {:induction false} CountMatches<S, T>(xs: seq<S>, a: S, ys: seq<T>, b: T)
    requires |xs| == |ys|
    requires forall k :: 0 <= k < |xs| ==> (xs[k] == a <==> ys[k] == b)
    ensures Count(xs, a) == Count(ys, b)
  {
    if |xs| > 0 {
      var n := |xs| - 1;
      CountMatches(xs[..n], a, ys[..n], b);
    }
  }

  /** Python's `sum` over a list of integers. */
  function Sum(xs: seq<int>): int
  {
    if |xs| == 0 then 0 else Sum(xs[..|xs| - 1]) + xs[|xs| - 1]
  }

  predicate StrictlyIncreasing(xs: seq<int>) {
    forall i, j :: 0 <= i < j < |xs| ==> xs[i] < xs[j]
  }

  predicate Distinct<T(==)>(xs: seq<T>) {
    forall i, j :: 0 <= i < j < |xs| ==> xs[i] != xs[j]
  }

  /** Splitting off the last element of a duplicate-free sequence: the rest stays duplicate-free and does not hold it. */
  lemma DistinctSplit<T>(xs: seq<T>, x: T)
    requires Distinct(xs) && |xs| > 0
    ensures Distinct(xs[..|xs| - 1])
    ensures x in xs <==> x in xs[..|xs| - 1] || x == xs[|xs| - 1]
    ensures x == xs[|xs| - 1] ==> x !in xs[..|xs| - 1]
  {
    assert xs == xs[..|xs| - 1] + [xs[|xs| - 1]];
  }

  /** Fancy indexing `xs[idx]`: the elements at the given positions, in the order of `idx`. */
  function Gather<T>(xs: seq<T>, idx: seq<nat>): (r: seq<T>)
    requires forall k :: 0 <= k < |idx| ==> idx[k] < |xs|
    ensures |r| == |idx|
    ensures forall k :: 0 <= k < |idx| ==> r[k] == xs[idx[k]]
  {
    seq(|idx|, k requires 0 <= k < |idx| => xs[idx[k]])
  }

  /** Appending to `xs` leaves gathered positions alone; gathering the new last position appends its element. */
  lemma GatherExtend<T>(xs: seq<T>, y: T, idx: seq<nat>)
    requires forall k :: 0 <= k < |idx| ==> idx[k] < |xs|
    ensures Gather(xs + [y], idx) == Gather(xs, idx)
    ensures Gather(xs + [y], idx + [|xs|]) == Gather(xs, idx) + [y]
  {
    assert forall k :: 0 <= k < |idx| ==> (xs + [y])[idx[k]] == xs[idx[k]];
  }
}
