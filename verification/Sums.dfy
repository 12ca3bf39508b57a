/** Sums of exact amounts over a list, and the one fact conservation needs:
    a sum does not depend on the order of its terms. */
module Sums {

  function SumOf<T>(xs: seq<T>, f: T -> int): int {
    if xs == [] then 0 else SumOf(xs[..|xs| - 1], f) + f(xs[|xs| - 1])
  }

  lemma {:induction false} SumSnoc<T>(xs: seq<T>, x: T, f: T -> int)
    ensures SumOf(xs + [x], f) == SumOf(xs, f) + f(x)
  {
    assert (xs + [x])[..|xs|] == xs;
  }

  lemma {:induction false} SumConcat<T>(xs: seq<T>, ys: seq<T>, f: T -> int)
    ensures SumOf(xs + ys, f) == SumOf(xs, f) + SumOf(ys, f)
  {
    if ys == [] {
      assert xs + ys == xs;
    } else {
      var init, last := ys[..|ys| - 1], ys[|ys| - 1];
      assert xs + ys == (xs + init) + [last];
      SumSnoc(xs + init, last, f);
      SumConcat(xs, init, f);
    }
  }

  lemma {:induction false} SplitAt<T>(xs: seq<T>, i: nat)
    requires i < |xs|
    ensures xs == xs[..i] + [xs[i]] + xs[i + 1..]
    ensures multiset(xs[..i] + xs[i + 1..]) == multiset(xs) - multiset{xs[i]}
  {
    assert xs == xs[..i] + [xs[i]] + xs[i + 1..];
  }

  lemma {:induction false} SumWithout<T>(xs: seq<T>, i: nat, f: T -> int)
    requires i < |xs|
    ensures SumOf(xs, f) == SumOf(xs[..i] + xs[i + 1..], f) + f(xs[i])
  {
    SplitAt(xs, i);
    SumConcat(xs[..i] + [xs[i]], xs[i + 1..], f);
    SumSnoc(xs[..i], xs[i], f);
    SumConcat(xs[..i], xs[i + 1..], f);
  }

  lemma {:induction false} SumIsOrderFree<T>(xs: seq<T>, ys: seq<T>, f: T -> int)
    requires multiset(xs) == multiset(ys)
    ensures SumOf(xs, f) == SumOf(ys, f)
    decreases |xs|
  {
    assert |xs| == |multiset(xs)| == |multiset(ys)| == |ys|;
    if xs != [] {
      var last := xs[|xs| - 1];
      assert last in multiset(ys);
      var i :| 0 <= i < |ys| && ys[i] == last;
      SplitAt(ys, i);
      SumWithout(ys, i, f);
      assert xs == xs[..|xs| - 1] + [last];
      SumIsOrderFree(xs[..|xs| - 1], ys[..i] + ys[i + 1..], f);
    }
  }

  /** Terms that agree element by element give the same sum. */
  lemma {:induction false} SumAgrees<T>(xs: seq<T>, f: T -> int, g: T -> int)
    requires forall x | x in xs :: f(x) == g(x)
    ensures SumOf(xs, f) == SumOf(xs, g)
  {
    if xs != [] {
      SumAgrees(xs[..|xs| - 1], f, g);
    }
  }

  ghost predicate NonNegative<T>(xs: seq<T>, f: T -> int) {
    forall i | 0 <= i < |xs| :: f(xs[i]) >= 0
  }

  /** A prefix of non-negative terms sums to no more than the whole. */
  lemma {:induction false} SumOfPrefix<T>(xs: seq<T>, n: nat, f: T -> int)
    requires n <= |xs| && NonNegative(xs, f)
    ensures 0 <= SumOf(xs[..n], f) <= SumOf(xs, f)
    decreases |xs|
  {
    if n < |xs| {
      SumOfPrefix(xs[..|xs| - 1], n, f);
      assert xs[..|xs| - 1][..n] == xs[..n];
    } else {
      assert xs[..n] == xs;
      if n > 0 {
        SumOfPrefix(xs[..n - 1], n - 1, f);
        assert xs[..n - 1][..n - 1] == xs[..n - 1];
      }
    }
  }
}
