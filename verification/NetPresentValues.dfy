/** The value function the reference search is given: dated amounts, discounted. */
module NetPresentValues {
  import opened Bisection

  /** An amount and the days that separate it from the first one. */
  datatype Flow = Flow(day: nat, amount: real)

  function Raised(x: real, n: nat): real {
    if n == 0 then 1.0 else Raised(x, n - 1) * x
  }

  /** What the flows are worth when a day discounts by a factor. */
  function ValueAt(flows: seq<Flow>, factor: real): real {
    if flows == [] then 0.0
    else
      var last := flows[|flows| - 1];
      ValueAt(flows[..|flows| - 1], factor) + last.amount * Raised(factor, last.day)
  }

  /** The loop of `npv`, whose discount of one flow is the day's factor to the power of its days. */
  method Accumulate(flows: seq<Flow>, factor: real) returns (total: real)
    ensures total == ValueAt(flows, factor)
  {
    total := 0.0;
    for i := 0 to |flows|
      invariant total == ValueAt(flows[..i], factor)
    {
      assert flows[..i + 1][..i] == flows[..i];
      total := total + flows[i].amount * Raised(factor, flows[i].day);
    }
    assert flows[..|flows|] == flows;
  }

  /** The value as a function of the rate. `factor` is what a day at a rate discounts
      by, one over the 365th root of one plus the rate. */
  function Npv(flows: seq<Flow>, factor: real -> real): real -> real {
    (rate: real) => ValueAt(flows, factor(rate))
  }

  // ---- Comparing products -------------------------------------------------------------
  //
  // Products are compared between named numbers, so that what is known of powers and
  // values reaches these lemmas by name alone.

  predicate NoLess(p: real, q: real, r: real, s: real) {
    p * q >= r * s
  }

  predicate More(p: real, q: real, r: real, s: real) {
    p * q > r * s
  }

  lemma {:induction false} OneMoreFactor(p: real, q: real, r: real, s: real, p': real, r': real, x: real, y: real)
    requires 0.0 < x < y && p > 0.0 && q > 0.0 && r > 0.0 && s > 0.0
    requires NoLess(p, q, r, s) && p' == p * y && r' == r * x
    ensures NoLess(p', q, r', s) && More(p', q, r', s)
  {
    assert p' * q == (p * q) * y;
    assert r' * s == (r * s) * x;
    assert r * s > 0.0;
    assert (p * q) * y >= (r * s) * y > (r * s) * x;
  }

  lemma {:induction false} SameProduct(p: real, q: real)
    ensures NoLess(p, q, q, p)
  {
  }

  lemma {:induction false} Scaled(a: real, p: real, q: real, r: real, s: real)
    ensures a >= 0.0 && NoLess(p, q, r, s) ==> NoLess(a * p, q, a * r, s)
    ensures a > 0.0 && More(p, q, r, s) ==> More(a * p, q, a * r, s)
    ensures a <= 0.0 && NoLess(s, r, q, p) ==> NoLess(a * p, q, a * r, s)
    ensures a < 0.0 && More(s, r, q, p) ==> More(a * p, q, a * r, s)
  {
    assert (a * p) * q == a * (p * q) && (a * r) * s == a * (r * s);
    var left, right := p * q, r * s;
    assert a >= 0.0 && left >= right ==> a * left >= a * right;
    assert a > 0.0 && left > right ==> a * left > a * right;
    assert a <= 0.0 && right >= left ==> a * left >= a * right;
    assert a < 0.0 && right > left ==> a * left > a * right;
  }

  lemma {:induction false} Added(v: real, w: real, f: real, g: real, p: real, q: real, total: real, other: real)
    requires NoLess(v, p, w, q) && NoLess(f, p, g, q)
    requires total == v + f && other == w + g
    ensures NoLess(total, p, other, q)
    ensures More(v, p, w, q) || More(f, p, g, q) ==> More(total, p, other, q)
  {
    assert total * p == v * p + f * p && other * q == w * q + g * q;
  }

  lemma {:induction false} SignOfProduct(v: real, w: real, p: real, q: real)
    requires More(v, p, w, q) && p > 0.0 && q > 0.0
    ensures w == 0.0 ==> v > 0.0
    ensures v == 0.0 ==> w < 0.0
  {
    assert v <= 0.0 ==> v * p <= 0.0;
    assert w >= 0.0 ==> w * q >= 0.0;
  }

  // ---- Powers ------------------------------------------------------------------------

  lemma {:induction false} RaisedIsPositive(x: real, n: nat)
    requires x > 0.0
    ensures Raised(x, n) > 0.0
  {
    if n > 0 {
      RaisedIsPositive(x, n - 1);
    }
  }

  /** A larger factor gains on a smaller one with every further day. */
  lemma {:induction false} LaterPowersGain(x: real, y: real, m: nat, n: nat)
    requires 0.0 < x < y && m <= n
    ensures NoLess(Raised(y, n), Raised(x, m), Raised(x, n), Raised(y, m))
    ensures m < n ==> More(Raised(y, n), Raised(x, m), Raised(x, n), Raised(y, m))
    decreases n
  {
    if m < n {
      LaterPowersGain(x, y, m, n - 1);
      RaisedIsPositive(x, m);
      RaisedIsPositive(y, m);
      RaisedIsPositive(x, n - 1);
      RaisedIsPositive(y, n - 1);
      OneMoreFactor(Raised(y, n - 1), Raised(x, m), Raised(x, n - 1), Raised(y, m), Raised(y, n), Raised(x, n), x, y);
    } else {
      SameProduct(Raised(y, m), Raised(x, m));
    }
  }

  // ---- One change of sign -----------------------------------------------------------------

  /** Money goes in before a day and comes out after it. */
  ghost predicate OutlaysFirst(flows: seq<Flow>, day: nat) {
    && (forall i | 0 <= i < |flows| && flows[i].day < day :: flows[i].amount <= 0.0)
    && (forall i | 0 <= i < |flows| && flows[i].day > day :: flows[i].amount >= 0.0)
  }

  predicate IsOffDay(flow: Flow, day: nat) {
    flow.day != day && flow.amount != 0.0
  }

  ghost predicate MovesOffDay(flows: seq<Flow>, day: nat) {
    exists i | 0 <= i < |flows| :: IsOffDay(flows[i], day)
  }

  function WorthOf(flow: Flow, factor: real): real {
    flow.amount * Raised(factor, flow.day)
  }

  lemma {:induction false} OutlayGains(flow: Flow, day: nat, x: real, y: real)
    requires 0.0 < x < y && flow.day < day && flow.amount <= 0.0
    ensures NoLess(WorthOf(flow, y), Raised(x, day), WorthOf(flow, x), Raised(y, day))
    ensures flow.amount < 0.0 ==> More(WorthOf(flow, y), Raised(x, day), WorthOf(flow, x), Raised(y, day))
  {
    LaterPowersGain(x, y, flow.day, day);
    Scaled(flow.amount, Raised(y, flow.day), Raised(x, day), Raised(x, flow.day), Raised(y, day));
  }

  lemma {:induction false} ReturnGains(flow: Flow, day: nat, x: real, y: real)
    requires 0.0 < x < y && day < flow.day && flow.amount >= 0.0
    ensures NoLess(WorthOf(flow, y), Raised(x, day), WorthOf(flow, x), Raised(y, day))
    ensures flow.amount > 0.0 ==> More(WorthOf(flow, y), Raised(x, day), WorthOf(flow, x), Raised(y, day))
  {
    LaterPowersGain(x, y, day, flow.day);
    Scaled(flow.amount, Raised(y, flow.day), Raised(x, day), Raised(x, flow.day), Raised(y, day));
  }

  lemma {:induction false} FlowOfTheDay(amount: real, p: real, q: real)
    ensures NoLess(amount * p, q, amount * q, p)
  {
    assert (amount * p) * q == (amount * q) * p;
  }

  /** One flow is worth no less under the larger factor, the two values brought to the day. */
  lemma {:induction false} FlowGains(flow: Flow, day: nat, x: real, y: real)
    requires 0.0 < x < y
    requires flow.day < day ==> flow.amount <= 0.0
    requires flow.day > day ==> flow.amount >= 0.0
    ensures NoLess(WorthOf(flow, y), Raised(x, day), WorthOf(flow, x), Raised(y, day))
    ensures IsOffDay(flow, day) ==> More(WorthOf(flow, y), Raised(x, day), WorthOf(flow, x), Raised(y, day))
  {
    if flow.day < day {
      OutlayGains(flow, day, x, y);
    } else if flow.day > day {
      ReturnGains(flow, day, x, y);
    } else {
      FlowOfTheDay(flow.amount, Raised(y, day), Raised(x, day));
    }
  }

  lemma {:induction false} ValueSnoc(flows: seq<Flow>, factor: real)
    requires flows != []
    ensures ValueAt(flows, factor) == ValueAt(flows[..|flows| - 1], factor) + WorthOf(flows[|flows| - 1], factor)
  {
  }

  lemma {:induction false} ValueGains(flows: seq<Flow>, day: nat, x: real, y: real)
    requires 0.0 < x < y && OutlaysFirst(flows, day)
    ensures NoLess(ValueAt(flows, y), Raised(x, day), ValueAt(flows, x), Raised(y, day))
    ensures MovesOffDay(flows, day) ==> More(ValueAt(flows, y), Raised(x, day), ValueAt(flows, x), Raised(y, day))
  {
    if flows != [] {
      var init, last := flows[..|flows| - 1], flows[|flows| - 1];
      assert forall i | 0 <= i < |init| :: init[i] == flows[i];
      ValueGains(init, day, x, y);
      FlowGains(last, day, x, y);
      ValueSnoc(flows, x);
      ValueSnoc(flows, y);
      Added(ValueAt(init, y), ValueAt(init, x), WorthOf(last, y), WorthOf(last, x), Raised(x, day), Raised(y, day),
            ValueAt(flows, y), ValueAt(flows, x));
      if MovesOffDay(flows, day) && !IsOffDay(last, day) {
        var i :| 0 <= i < |flows| && IsOffDay(flows[i], day);
        assert init[i] == flows[i];
      }
    }
  }

  /** Under a larger factor than a root the flows are worth something, under a smaller
      one they cost something. */
  lemma {:induction false} SignsAroundFactor(flows: seq<Flow>, day: nat, x: real, y: real)
    requires 0.0 < x < y && OutlaysFirst(flows, day) && MovesOffDay(flows, day)
    ensures ValueAt(flows, x) == 0.0 ==> ValueAt(flows, y) > 0.0
    ensures ValueAt(flows, y) == 0.0 ==> ValueAt(flows, x) < 0.0
  {
    ValueGains(flows, day, x, y);
    RaisedIsPositive(x, day);
    RaisedIsPositive(y, day);
    SignOfProduct(ValueAt(flows, y), ValueAt(flows, x), Raised(x, day), Raised(y, day));
  }

  ghost predicate PositiveOn(factor: real -> real, low: real, high: real) {
    forall rate | low <= rate <= high :: factor(rate) > 0.0
  }

  /** Whatever the days and amounts, flows whose outlays come before their returns
      cross zero once: they are worth something below the rate that balances them and
      cost something above it. Strict monotonicity is not needed, and two outlays
      followed by one return do not have it. */
  lemma {:induction false} OutlaysFirstCrossOnce(flows: seq<Flow>, day: nat, factor: real -> real, low: real, high: real, root: real)
    requires FallsOn(factor, low, high) && PositiveOn(factor, low, high)
    requires OutlaysFirst(flows, day) && MovesOffDay(flows, day)
    requires low <= root <= high && Npv(flows, factor)(root) == 0.0
    ensures CrossesAt(Npv(flows, factor), low, high, root)
  {
    forall rate | low <= rate < root
      ensures Npv(flows, factor)(rate) > 0.0
    {
      assert 0.0 < factor(root) < factor(rate);
      SignsAroundFactor(flows, day, factor(root), factor(rate));
    }
    forall rate | root < rate <= high
      ensures Npv(flows, factor)(rate) < 0.0
    {
      assert 0.0 < factor(rate) < factor(root);
      SignsAroundFactor(flows, day, factor(rate), factor(root));
    }
  }

  /** So the search pins the rate of such flows down, three digits every ten steps. */
  lemma {:induction false} XirrIsPrecise(flows: seq<Flow>, day: nat, factor: real -> real, low: real, high: real, root: real, groups: nat)
    requires FallsOn(factor, low, high) && PositiveOn(factor, low, high)
    requires OutlaysFirst(flows, day) && MovesOffDay(flows, day)
    requires low <= root <= high && low < high && Npv(flows, factor)(root) == 0.0
    ensures IsWithin(Npv(flows, factor), low, high, root, groups)
  {
    OutlaysFirstCrossOnce(flows, day, factor, low, high, root);
    AnswerIsPrecise(Npv(flows, factor), low, high, root, groups);
  }
}
