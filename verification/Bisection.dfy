/** The reference XIRR search: four hundred halvings of a sign change, over exact
    reals and for any value function of the rate. */
module Bisection {
  import opened Outcomes

  const STEPS := 400

  function Sign(x: real): int {
    if x > 0.0 then 1 else if x < 0.0 then -1 else 0
  }

  /** Where a search stands: on an exact zero, or between two rates. */
  datatype Search = Root(at: real) | Bracket(low: real, high: real)

  function Middle(low: real, high: real): real {
    (low + high) / 2.0
  }

  function Bisect(f: real -> real, low: real, high: real, steps: nat): Search
    decreases steps
  {
    if steps == 0 then Bracket(low, high)
    else
      var mid := Middle(low, high);
      if f(mid) == 0.0 then Root(mid)
      else if Sign(f(mid)) == Sign(f(low)) then Bisect(f, mid, high, steps - 1)
      else Bisect(f, low, mid, steps - 1)
  }

  function Estimate(s: Search): real {
    match s
    case Root(at) => at
    case Bracket(low, high) => Middle(low, high)
  }

  datatype ValueError = NoSignChange

  method Xirr(f: real -> real, from: real, until: real) returns (r: Result<real, ValueError>)
    ensures r.Err? <==> Sign(f(from)) == Sign(f(until))
    ensures r.Ok? ==> r.value == Estimate(Bisect(f, from, until, STEPS))
    ensures forall root | CrossesAt(f, from, until, root) && from < until ::
              r.Ok? && Abs(r.value - root) <= Thousandths(until - from, 40)
  {
    forall root | CrossesAt(f, from, until, root) && from < until
      ensures Sign(f(from)) != Sign(f(until))
      ensures Abs(Estimate(Bisect(f, from, until, STEPS)) - root) <= Thousandths(until - from, 40)
    {
      XirrIsWithin(f, from, until, root);
    }
    var low, high := from, until;
    var fLow := f(low);
    if Sign(fLow) == Sign(f(high)) {
      return Err(NoSignChange);
    }
    for i := 0 to STEPS
      invariant fLow == f(low)
      invariant Bisect(f, low, high, STEPS - i) == Bisect(f, from, until, STEPS)
    {
      var mid := (low + high) / 2.0;
      var fMid := f(mid);
      if fMid == 0.0 {
        return Ok(mid);
      }
      if Sign(fMid) == Sign(fLow) {
        low, fLow := mid, fMid;
      } else {
        high := mid;
      }
    }
    r := Ok((low + high) / 2.0);
  }

  // ---- The bracket -------------------------------------------------------------------

  function Halved(width: real, times: nat): real {
    if times == 0 then width else Halved(width, times - 1) / 2.0
  }

  function Power(times: nat): int {
    if times == 0 then 1 else 2 * Power(times - 1)
  }

  /** A width halved some number of times is the width over that power of two. */
  lemma {:induction false} HalvedIsOverPower(width: real, times: nat)
    ensures Halved(width, times) * Power(times) as real == width
  {
    if times > 0 {
      HalvedIsOverPower(width, times - 1);
      var part, power := Halved(width, times - 1), Power(times - 1) as real;
      assert Power(times) as real == 2.0 * power;
      assert (part / 2.0) * (2.0 * power) == part * power;
    }
  }

  lemma {:induction false} HalvedEarlier(width: real, times: nat)
    ensures Halved(width / 2.0, times) == Halved(width, times + 1)
  {
    if times > 0 {
      HalvedEarlier(width, times - 1);
    }
  }

  /** After any number of steps: an exact zero, or a change of sign whose width is
      the first width halved that many times, its low end keeping the first sign. */
  lemma {:induction false} BracketNarrows(f: real -> real, low: real, high: real, steps: nat)
    requires Sign(f(low)) != Sign(f(high))
    ensures var s := Bisect(f, low, high, steps);
      match s
      case Root(at) => f(at) == 0.0
      case Bracket(l, h) =>
        Sign(f(l)) == Sign(f(low)) && Sign(f(h)) != Sign(f(low)) && h - l == Halved(high - low, steps)
    decreases steps
  {
    if steps > 0 {
      var mid := Middle(low, high);
      HalvedEarlier(high - low, steps - 1);
      if f(mid) != 0.0 {
        if Sign(f(mid)) == Sign(f(low)) {
          BracketNarrows(f, mid, high, steps - 1);
        } else {
          BracketNarrows(f, low, mid, steps - 1);
        }
      }
    }
  }

  /** The search does not leave the interval it was given. */
  lemma {:induction false} SearchStaysInside(f: real -> real, low: real, high: real, steps: nat)
    requires low <= high
    ensures match Bisect(f, low, high, steps)
            case Root(at) => low <= at <= high
            case Bracket(l, h) => low <= l <= h <= high
    decreases steps
  {
    if steps > 0 {
      var mid := Middle(low, high);
      if f(mid) != 0.0 {
        if Sign(f(mid)) == Sign(f(low)) {
          SearchStaysInside(f, mid, high, steps - 1);
        } else {
          SearchStaysInside(f, low, mid, steps - 1);
        }
      }
    }
  }

  /** What a successful search answers: an exact zero, or a rate as close to both
      ends of a change of sign as the first width halved once more. */
  lemma {:induction false} EstimateIsNearASignChange(f: real -> real, low: real, high: real, steps: nat)
    requires Sign(f(low)) != Sign(f(high))
    ensures var r := Estimate(Bisect(f, low, high, steps));
      f(r) == 0.0
      || (Sign(f(r - Halved(high - low, steps + 1))) == Sign(f(low))
          && Sign(f(r + Halved(high - low, steps + 1))) != Sign(f(low)))
  {
    BracketNarrows(f, low, high, steps);
    match Bisect(f, low, high, steps) {
      case Root(_) =>
      case Bracket(l, h) =>
        assert Middle(l, h) - (h - l) / 2.0 == l && Middle(l, h) + (h - l) / 2.0 == h;
    }
  }

  // ---- The root ----------------------------------------------------------------------

  ghost predicate GoesDownThrough(f: real -> real, low: real, high: real, root: real) {
    (forall x | low <= x < root :: f(x) > 0.0) && (forall x | root < x <= high :: f(x) < 0.0)
  }

  ghost predicate GoesUpThrough(f: real -> real, low: real, high: real, root: real) {
    (forall x | low <= x < root :: f(x) < 0.0) && (forall x | root < x <= high :: f(x) > 0.0)
  }

  /** Within the bounds a function has one root, of one sign below it and of the
      other above. Nothing is said of it outside them. */
  ghost predicate CrossesAt(f: real -> real, low: real, high: real, root: real) {
    && low <= root <= high && f(root) == 0.0
    && (GoesDownThrough(f, low, high, root) || GoesUpThrough(f, low, high, root))
  }

  ghost predicate RisesOn(f: real -> real, low: real, high: real) {
    forall x, y | low <= x < y <= high :: f(x) < f(y)
  }

  ghost predicate FallsOn(f: real -> real, low: real, high: real) {
    forall x, y | low <= x < y <= high :: f(x) > f(y)
  }

  /** A function strictly monotone within the bounds crosses at the root it has there. */
  lemma {:induction false} MonotoneCrossesOnce(f: real -> real, low: real, high: real, root: real)
    requires (RisesOn(f, low, high) || FallsOn(f, low, high)) && low <= root <= high && f(root) == 0.0
    ensures CrossesAt(f, low, high, root)
  {
    if RisesOn(f, low, high) {
      assert forall x | low <= x < root :: f(x) < f(root);
      assert forall x | root < x <= high :: f(root) < f(x);
    } else {
      assert forall x | low <= x < root :: f(x) > f(root);
      assert forall x | root < x <= high :: f(root) > f(x);
    }
  }

  lemma {:induction false} CrossesWithin(f: real -> real, low: real, high: real, root: real, l: real, h: real)
    requires CrossesAt(f, low, high, root) && low <= l <= root <= h <= high
    ensures CrossesAt(f, l, h, root)
  {
  }

  /** Bounds on either side of the only root have different signs, so the search does
      not refuse them. */
  lemma {:induction false} CrossingChangesSign(f: real -> real, low: real, high: real, root: real)
    requires CrossesAt(f, low, high, root) && low < high
    ensures Sign(f(low)) != Sign(f(high))
  {
  }

  /** The half that is kept is the half with the root. */
  lemma {:induction false} HalfKeepsRoot(f: real -> real, low: real, high: real, root: real, mid: real)
    requires CrossesAt(f, low, high, root) && low < mid < high
    ensures f(mid) == 0.0 <==> mid == root
    ensures f(mid) != 0.0 ==> (Sign(f(mid)) == Sign(f(low)) <==> mid < root)
  {
  }

  /** A root that is crossed once within the bounds is in every bracket of the search. */
  lemma {:induction false} RootStaysBracketed(f: real -> real, low: real, high: real, root: real, steps: nat)
    requires CrossesAt(f, low, high, root) && low < high
    ensures match Bisect(f, low, high, steps)
            case Root(at) => at == root
            case Bracket(l, h) => l <= root <= h
    decreases steps
  {
    if steps > 0 {
      var mid := Middle(low, high);
      HalfKeepsRoot(f, low, high, root, mid);
      if f(mid) != 0.0 {
        if Sign(f(mid)) == Sign(f(low)) {
          CrossesWithin(f, low, high, root, mid, high);
          RootStaysBracketed(f, mid, high, root, steps - 1);
        } else {
          CrossesWithin(f, low, high, root, low, mid);
          RootStaysBracketed(f, low, mid, root, steps - 1);
        }
      }
    }
  }

  function Abs(x: real): real {
    if x < 0.0 then -x else x
  }

  lemma {:induction false} HalvedIsNonNegative(width: real, times: nat)
    requires width >= 0.0
    ensures Halved(width, times) >= 0.0
  {
    if times > 0 {
      HalvedIsNonNegative(width, times - 1);
    }
  }

  /** The answer is no further from the root than the first width halved once more. */
  lemma {:induction false} EstimateIsNearTheRoot(f: real -> real, low: real, high: real, root: real, steps: nat)
    requires CrossesAt(f, low, high, root) && low < high
    ensures Abs(Estimate(Bisect(f, low, high, steps)) - root) <= Halved(high - low, steps + 1)
  {
    CrossingChangesSign(f, low, high, root);
    RootStaysBracketed(f, low, high, root, steps);
    BracketNarrows(f, low, high, steps);
    HalvedIsNonNegative(high - low, steps + 1);
  }

  function Thousandths(width: real, times: nat): real {
    if times == 0 then width else Thousandths(width, times - 1) / 1000.0
  }

  lemma {:induction false} TenHalvings(width: real, times: nat)
    ensures Halved(width, times + 10) == Halved(width, times) / 1024.0
  {
    assert Halved(width, times + 5) == Halved(width, times) / 32.0 by {
      assert Halved(width, times + 1) == Halved(width, times) / 2.0;
      assert Halved(width, times + 3) == Halved(width, times + 1) / 4.0 by {
        assert Halved(width, times + 2) == Halved(width, times + 1) / 2.0;
      }
      assert Halved(width, times + 4) == Halved(width, times + 3) / 2.0;
    }
    assert Halved(width, times + 10) == Halved(width, times + 5) / 32.0 by {
      assert Halved(width, times + 6) == Halved(width, times + 5) / 2.0;
      assert Halved(width, times + 8) == Halved(width, times + 6) / 4.0 by {
        assert Halved(width, times + 7) == Halved(width, times + 6) / 2.0;
      }
      assert Halved(width, times + 9) == Halved(width, times + 8) / 2.0;
    }
  }

  /** Ten halvings are worth three decimal digits. */
  lemma {:induction false} HalvingsAsDigits(width: real, groups: nat)
    requires width >= 0.0
    ensures Halved(width, 10 * groups) <= Thousandths(width, groups)
  {
    if groups > 0 {
      HalvingsAsDigits(width, groups - 1);
      TenHalvings(width, 10 * (groups - 1));
      HalvedIsNonNegative(width, 10 * (groups - 1));
    }
  }

  /** How close the search is to the root after ten times as many steps as groups of digits. */
  ghost predicate IsWithin(f: real -> real, low: real, high: real, root: real, groups: nat) {
    Abs(Estimate(Bisect(f, low, high, 10 * groups)) - root) <= Thousandths(high - low, groups)
  }

  /** Every ten steps of the search pin the root three decimal digits further, so the
      four hundred it takes are worth a hundred and twenty. */
  lemma {:induction false} AnswerIsPrecise(f: real -> real, low: real, high: real, root: real, groups: nat)
    requires CrossesAt(f, low, high, root) && low < high
    ensures IsWithin(f, low, high, root, groups)
  {
    EstimateIsNearTheRoot(f, low, high, root, 10 * groups);
    HalvingsAsDigits(high - low, groups);
    HalvedIsNonNegative(high - low, 10 * groups);
  }

  /** What the four hundred halvings are worth: a hundred and twenty digits of the root
      that is crossed. */
  lemma {:induction false} XirrIsWithin(f: real -> real, low: real, high: real, root: real)
    requires low < high && CrossesAt(f, low, high, root)
    ensures Sign(f(low)) != Sign(f(high))
    ensures Abs(Estimate(Bisect(f, low, high, STEPS)) - root) <= Thousandths(high - low, 40)
  {
    CrossingChangesSign(f, low, high, root);
    AnswerIsPrecise(f, low, high, root, 40);
  }
}
