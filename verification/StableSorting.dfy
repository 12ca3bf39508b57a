/** A stable sort by a lexicographic rank of three integers.

    It stands for Python's `sorted` and Rust's `sort_by_key`, whose contract is
    all the callers rely on: a permutation, in rank order, that leaves elements
    of equal rank in the order they came in. */
module StableSorting {

  datatype Rank = Rank(first: int, second: int, third: int)

  datatype Keyed<+T> = Keyed(rank: Rank, item: T)

  /** A rank with one significant component. */
  function Single(n: int): Rank {
    Rank(n, 0, 0)
  }

  predicate Le(a: Rank, b: Rank) {
    a.first < b.first
    || (a.first == b.first && (a.second < b.second || (a.second == b.second && a.third <= b.third)))
  }

  ghost predicate Sorted<T>(xs: seq<Keyed<T>>) {
    forall i, j | 0 <= i < j < |xs| :: Le(xs[i].rank, xs[j].rank)
  }

  /** Insert behind everything of lower or equal rank. */
  function Insert<T>(xs: seq<Keyed<T>>, x: Keyed<T>): seq<Keyed<T>> {
    if xs == [] then [x]
    else
      var last := xs[|xs| - 1];
      if Le(last.rank, x.rank) then xs + [x] else Insert(xs[..|xs| - 1], x) + [last]
  }

  function Sort<T>(xs: seq<Keyed<T>>): seq<Keyed<T>> {
    if xs == [] then [] else Insert(Sort(xs[..|xs| - 1]), xs[|xs| - 1])
  }

  function Items<T>(xs: seq<Keyed<T>>): (items: seq<T>)
    ensures |items| == |xs|
    ensures forall i | 0 <= i < |xs| :: items[i] == xs[i].item
  {
    if xs == [] then [] else Items(xs[..|xs| - 1]) + [xs[|xs| - 1].item]
  }

  lemma {:induction false} DropLast<T>(xs: seq<T>)
    requires xs != []
    ensures multiset(xs[..|xs| - 1]) == multiset(xs) - multiset{xs[|xs| - 1]}
    ensures xs == xs[..|xs| - 1] + [xs[|xs| - 1]]
  {
    assert xs == xs[..|xs| - 1] + [xs[|xs| - 1]];
  }

  lemma {:induction false} InsertIsPermutation<T>(xs: seq<Keyed<T>>, x: Keyed<T>)
    ensures multiset(Insert(xs, x)) == multiset(xs) + multiset{x}
    ensures |Insert(xs, x)| == |xs| + 1
  {
    if xs != [] && !Le(xs[|xs| - 1].rank, x.rank) {
      InsertIsPermutation(xs[..|xs| - 1], x);
      DropLast(xs);
    }
  }

  lemma {:induction false} SortIsPermutation<T>(xs: seq<Keyed<T>>)
    ensures multiset(Sort(xs)) == multiset(xs)
    ensures |Sort(xs)| == |xs|
  {
    if xs != [] {
      SortIsPermutation(xs[..|xs| - 1]);
      InsertIsPermutation(Sort(xs[..|xs| - 1]), xs[|xs| - 1]);
      DropLast(xs);
    }
  }

  lemma {:induction false} InsertItems<T>(xs: seq<Keyed<T>>, x: Keyed<T>)
    ensures multiset(Items(Insert(xs, x))) == multiset(Items(xs)) + multiset{x.item}
  {
    if xs != [] && !Le(xs[|xs| - 1].rank, x.rank) {
      var init, last := xs[..|xs| - 1], xs[|xs| - 1];
      InsertItems(init, x);
      assert Insert(xs, x)[..|Insert(init, x)|] == Insert(init, x);
    } else {
      assert (xs + [x])[..|xs|] == xs;
    }
  }

  lemma {:induction false} SortItems<T>(xs: seq<Keyed<T>>)
    ensures multiset(Items(Sort(xs))) == multiset(Items(xs))
  {
    if xs != [] {
      SortItems(xs[..|xs| - 1]);
      InsertItems(Sort(xs[..|xs| - 1]), xs[|xs| - 1]);
    }
  }

  lemma {:induction false} InsertKeepsOrder<T>(xs: seq<Keyed<T>>, x: Keyed<T>)
    requires Sorted(xs)
    ensures Sorted(Insert(xs, x))
  {
    if xs != [] && !Le(xs[|xs| - 1].rank, x.rank) {
      var init, last := xs[..|xs| - 1], xs[|xs| - 1];
      InsertKeepsOrder(init, x);
      InsertIsPermutation(init, x);
      forall y | y in Insert(init, x)
        ensures Le(y.rank, last.rank)
      {
        assert y in multiset(Insert(init, x));
      }
    }
  }

  lemma {:induction false} SortSorts<T>(xs: seq<Keyed<T>>)
    ensures Sorted(Sort(xs))
  {
    if xs != [] {
      SortSorts(xs[..|xs| - 1]);
      InsertKeepsOrder(Sort(xs[..|xs| - 1]), xs[|xs| - 1]);
    }
  }

  ghost predicate RanksDiffer<T>(xs: seq<Keyed<T>>) {
    forall i, j | 0 <= i < j < |xs| :: xs[i].rank != xs[j].rank
  }

  lemma {:induction false} InsertKeepsDifferent<T>(xs: seq<Keyed<T>>, x: Keyed<T>)
    requires RanksDiffer(xs) && forall y | y in xs :: y.rank != x.rank
    ensures RanksDiffer(Insert(xs, x))
    ensures forall y | y in Insert(xs, x) :: y in xs || y == x
  {
    if xs != [] && !Le(xs[|xs| - 1].rank, x.rank) {
      var init, last := xs[..|xs| - 1], xs[|xs| - 1];
      InsertKeepsDifferent(init, x);
      forall y | y in Insert(init, x)
        ensures y.rank != last.rank
      {
        if y in init {
          var i :| 0 <= i < |init| && init[i] == y;
          assert xs[i] == y;
        }
      }
    }
  }

  /** Distinct ranks stay distinct, so they come out strictly ascending. */
  lemma {:induction false} SortKeepsDifferent<T>(xs: seq<Keyed<T>>)
    requires RanksDiffer(xs)
    ensures RanksDiffer(Sort(xs))
    ensures forall y | y in Sort(xs) :: y in xs
  {
    if xs != [] {
      SortKeepsDifferent(xs[..|xs| - 1]);
      InsertKeepsDifferent(Sort(xs[..|xs| - 1]), xs[|xs| - 1]);
    }
  }

  /** A list already in order is left as it is: in particular one whose ranks are all equal. */
  lemma {:induction false} SortKeepsSorted<T>(xs: seq<Keyed<T>>)
    requires Sorted(xs)
    ensures Sort(xs) == xs
  {
    if xs != [] {
      SortKeepsSorted(xs[..|xs| - 1]);
      assert xs == xs[..|xs| - 1] + [xs[|xs| - 1]];
    }
  }

  function Filter<T>(xs: seq<T>, p: T -> bool): (ys: seq<T>)
    ensures forall y | y in ys :: y in xs && p(y)
  {
    if xs == [] then []
    else
      var rest := Filter(xs[..|xs| - 1], p);
      if p(xs[|xs| - 1]) then rest + [xs[|xs| - 1]] else rest
  }

  lemma {:induction false} FilterSnoc<T>(xs: seq<T>, x: T, p: T -> bool)
    ensures Filter(xs + [x], p) == Filter(xs, p) + if p(x) then [x] else []
  {
    assert (xs + [x])[..|xs|] == xs;
  }

  lemma {:induction false} FilterKeepsOrder<T>(xs: seq<Keyed<T>>, p: Keyed<T> -> bool)
    requires Sorted(xs)
    ensures Sorted(Filter(xs, p))
  {
    if xs != [] {
      FilterKeepsOrder(xs[..|xs| - 1], p);
      forall y | y in Filter(xs[..|xs| - 1], p)
        ensures Le(y.rank, xs[|xs| - 1].rank)
      {
        assert y in xs[..|xs| - 1];
      }
    }
  }

  lemma {:induction false} InsertFilter<T>(xs: seq<Keyed<T>>, x: Keyed<T>, p: Keyed<T> -> bool)
    requires Sorted(xs)
    ensures Filter(Insert(xs, x), p) == if p(x) then Insert(Filter(xs, p), x) else Filter(xs, p)
  {
    if xs == [] {
      FilterSnoc([], x, p);
      assert [] + [x] == [x];
    } else {
      var init, last := xs[..|xs| - 1], xs[|xs| - 1];
      if Le(last.rank, x.rank) {
        FilterSnoc(xs, x, p);
        var kept := Filter(xs, p);
        if kept != [] {
          assert kept[|kept| - 1] in xs;
        }
      } else {
        InsertFilter(init, x, p);
        FilterSnoc(Insert(init, x), last, p);
        if p(last) && p(x) {
          var kept := Filter(init, p) + [last];
          assert kept[..|kept| - 1] == Filter(init, p);
        }
      }
    }
  }

  /** Stability, in its general form: sorting commutes with selecting. */
  lemma {:induction false} SortFilter<T>(xs: seq<Keyed<T>>, p: Keyed<T> -> bool)
    ensures Filter(Sort(xs), p) == Sort(Filter(xs, p))
  {
    if xs != [] {
      var init, last := xs[..|xs| - 1], xs[|xs| - 1];
      SortFilter(init, p);
      SortSorts(init);
      InsertFilter(Sort(init), last, p);
      if p(last) {
        assert (Filter(init, p) + [last])[..|Filter(init, p)|] == Filter(init, p);
      }
    }
  }

  ghost predicate DistinctRanks<T>(xs: seq<Keyed<T>>) {
    forall x, y | x in xs && y in xs && x.rank == y.rank :: x == y
  }

  lemma {:induction false} LastIsGreatest<T>(xs: seq<Keyed<T>>, x: Keyed<T>)
    requires Sorted(xs) && x in multiset(xs)
    ensures xs != [] && Le(x.rank, xs[|xs| - 1].rank)
  {
    var i :| 0 <= i < |xs| && xs[i] == x;
  }

  lemma {:induction false} LastsAreEqual<T>(xs: seq<Keyed<T>>, ys: seq<Keyed<T>>)
    requires Sorted(xs) && Sorted(ys) && multiset(xs) == multiset(ys)
    requires DistinctRanks(xs) && xs != [] && ys != []
    ensures xs[|xs| - 1] == ys[|ys| - 1]
  {
    var x, y := xs[|xs| - 1], ys[|ys| - 1];
    assert x in multiset(ys) && y in multiset(xs);
    LastIsGreatest(xs, y);
    LastIsGreatest(ys, x);
    assert x in xs && y in xs;
  }

  lemma {:induction false} EarlierStaySorted<T>(xs: seq<Keyed<T>>)
    requires xs != []
    ensures Sorted(xs) ==> Sorted(xs[..|xs| - 1])
    ensures DistinctRanks(xs) ==> DistinctRanks(xs[..|xs| - 1])
  {
    assert forall x | x in xs[..|xs| - 1] :: x in xs;
  }

  /** Where ranks identify elements, order fixes the list: the input order is forgotten. */
  lemma {:induction false} SortedIsUnique<T>(xs: seq<Keyed<T>>, ys: seq<Keyed<T>>)
    requires Sorted(xs) && Sorted(ys) && multiset(xs) == multiset(ys)
    requires DistinctRanks(xs)
    ensures xs == ys
    decreases |xs|
  {
    assert |xs| == |multiset(xs)| == |multiset(ys)| == |ys|;
    if xs != [] {
      LastsAreEqual(xs, ys);
      DropLast(xs);
      DropLast(ys);
      EarlierStaySorted(xs);
      EarlierStaySorted(ys);
      SortedIsUnique(xs[..|xs| - 1], ys[..|ys| - 1]);
    }
  }

  lemma {:induction false} SortForgetsOrder<T>(xs: seq<Keyed<T>>, ys: seq<Keyed<T>>)
    requires multiset(xs) == multiset(ys) && DistinctRanks(xs)
    ensures Sort(xs) == Sort(ys)
  {
    SortIsPermutation(xs);
    SortIsPermutation(ys);
    SortSorts(xs);
    SortSorts(ys);
    forall x, y | x in Sort(xs) && y in Sort(xs) && x.rank == y.rank
      ensures x == y
    {
      assert x in multiset(Sort(xs)) && y in multiset(Sort(xs));
    }
    SortedIsUnique(Sort(xs), Sort(ys));
  }

  // ---- Carrying items through a sort ------------------------------------------

  function MapItems<T, U>(xs: seq<Keyed<T>>, f: T -> U): (ys: seq<Keyed<U>>)
    ensures |ys| == |xs|
    ensures forall i | 0 <= i < |xs| :: ys[i] == Keyed(xs[i].rank, f(xs[i].item))
  {
    if xs == [] then [] else MapItems(xs[..|xs| - 1], f) + [Keyed(xs[|xs| - 1].rank, f(xs[|xs| - 1].item))]
  }

  lemma {:induction false} MapSnoc<T, U>(xs: seq<Keyed<T>>, x: Keyed<T>, f: T -> U)
    ensures MapItems(xs + [x], f) == MapItems(xs, f) + [Keyed(x.rank, f(x.item))]
  {
    assert (xs + [x])[..|xs|] == xs;
  }

  lemma {:induction false} InsertMap<T, U>(xs: seq<Keyed<T>>, x: Keyed<T>, f: T -> U)
    ensures MapItems(Insert(xs, x), f) == Insert(MapItems(xs, f), Keyed(x.rank, f(x.item)))
  {
    if xs == [] || Le(xs[|xs| - 1].rank, x.rank) {
      MapSnoc(xs, x, f);
    } else {
      var init, last := xs[..|xs| - 1], xs[|xs| - 1];
      InsertMap(init, x, f);
      MapSnoc(Insert(init, x), last, f);
    }
  }

  /** What a sort does depends on the ranks alone. */
  lemma {:induction false} SortMap<T, U>(xs: seq<Keyed<T>>, f: T -> U)
    ensures MapItems(Sort(xs), f) == Sort(MapItems(xs, f))
  {
    if xs != [] {
      var init, last := xs[..|xs| - 1], xs[|xs| - 1];
      SortMap(init, f);
      InsertMap(Sort(init), last, f);
    }
  }

  /** Selecting by item is selecting by keyed element. */
  lemma {:induction false} ItemsFilter<T>(xs: seq<Keyed<T>>, p: Keyed<T> -> bool, q: T -> bool)
    requires forall x | x in xs :: p(x) == q(x.item)
    ensures Filter(Items(xs), q) == Items(Filter(xs, p))
  {
    if xs != [] {
      var init, last := xs[..|xs| - 1], xs[|xs| - 1];
      ItemsFilter(init, p, q);
      FilterSnoc(Items(init), last.item, q);
      var kept := Filter(init, p);
      assert p(last) ==> (kept + [last])[..|kept|] == kept;
    }
  }
}
