/** Exactly when the order of the rows decides whether they can be grouped. */
module CategoryImpactOrder {
  import opened Money
  import opened Sums
  import opened CategoryImpact
  import opened CategoryImpactLaws

  /** What a group's outflows report, refunds aside. */
  function Spent(key: GroupKey): ImpactRow -> int {
    (row: ImpactRow) => if Reported(key)(row) > 0 then Reported(key)(row) else 0
  }

  /** What a group's refunds take back, as a positive number. */
  function Returned(key: GroupKey): ImpactRow -> int {
    (row: ImpactRow) => if Reported(key)(row) < 0 then 0 - Reported(key)(row) else 0
  }

  /** The two sides of a group can each be posted on its own. */
  ghost predicate SidesFitAt(rows: seq<ImpactRow>, key: GroupKey) {
    Fits(SumOf(rows, Spent(key))) && Fits(0 - SumOf(rows, Returned(key)))
  }

  ghost predicate SidesFit(rows: seq<ImpactRow>) {
    forall key :: SidesFitAt(rows, key)
  }

  lemma {:induction false} SidesAddUp(rows: seq<ImpactRow>, key: GroupKey)
    ensures Amount(rows, key) == SumOf(rows, Spent(key)) - SumOf(rows, Returned(key))
  {
    if rows != [] {
      SidesAddUp(rows[..|rows| - 1], key);
    }
  }

  // ---- Sides that fit: every order succeeds -----------------------------------------------

  /** Every prefix of rows whose sides fit has group amounts that fit. */
  lemma {:induction false} PrefixFits(rows: seq<ImpactRow>, n: nat, key: GroupKey)
    requires SidesFitAt(rows, key) && n <= |rows|
    ensures Fits(Amount(rows[..n], key))
  {
    SumOfPrefix(rows, n, Spent(key));
    SumOfPrefix(rows, n, Returned(key));
    SidesAddUp(rows[..n], key);
  }

  lemma {:induction false} SidesFitSucceeds(rows: seq<ImpactRow>, n: nat)
    requires SidesFit(rows) && Negatable(rows) && |rows| <= U64_MAX && n <= |rows|
    ensures FirstFailure(rows[..n]).None?
  {
    if n > 0 {
      SidesFitSucceeds(rows, n - 1);
      assert rows[..n] == rows[..n - 1] + [rows[n - 1]];
      FailureSnoc(rows[..n - 1], rows[n - 1]);
      assert SidesFitAt(rows, KeyOf(rows[n - 1]));
      PrefixFits(rows, n, KeyOf(rows[n - 1]));
      GroupSnoc(rows[..n - 1], rows[n - 1], KeyOf(rows[n - 1]));
    }
  }

  // ---- A side that does not fit: some order fails --------------------------------------------

  /** The rows a function is not zero on. */
  function Where(rows: seq<ImpactRow>, f: ImpactRow -> int): seq<ImpactRow> {
    if rows == [] then []
    else
      var before, last := Where(rows[..|rows| - 1], f), rows[|rows| - 1];
      if f(last) != 0 then before + [last] else before
  }

  function Elsewhere(rows: seq<ImpactRow>, f: ImpactRow -> int): seq<ImpactRow> {
    if rows == [] then []
    else
      var before, last := Elsewhere(rows[..|rows| - 1], f), rows[|rows| - 1];
      if f(last) != 0 then before else before + [last]
  }

  lemma {:induction false} WherePermutes(rows: seq<ImpactRow>, f: ImpactRow -> int)
    ensures multiset(Where(rows, f)) + multiset(Elsewhere(rows, f)) == multiset(rows)
  {
    if rows != [] {
      var init, last := rows[..|rows| - 1], rows[|rows| - 1];
      WherePermutes(init, f);
      assert rows == init + [last];
      assert multiset(rows) == multiset(init) + multiset{last};
    }
  }

  lemma {:induction false} WhereSums(rows: seq<ImpactRow>, f: ImpactRow -> int)
    ensures SumOf(Where(rows, f), f) == SumOf(rows, f)
    ensures forall i | 0 <= i < |Where(rows, f)| :: f(Where(rows, f)[i]) != 0
  {
    if rows != [] {
      var init, last := rows[..|rows| - 1], rows[|rows| - 1];
      WhereSums(init, f);
      if f(last) != 0 {
        SumSnoc(Where(init, f), last, f);
      }
    }
  }

  /** Rows of one sign only: what they report is that side alone. */
  lemma {:induction false} OneSign(rows: seq<ImpactRow>, key: GroupKey)
    ensures (forall i | 0 <= i < |rows| :: Spent(key)(rows[i]) != 0) ==> Amount(rows, key) == SumOf(rows, Spent(key))
    ensures (forall i | 0 <= i < |rows| :: Returned(key)(rows[i]) != 0) ==> Amount(rows, key) == 0 - SumOf(rows, Returned(key))
  {
    if rows != [] {
      var init := rows[..|rows| - 1];
      assert forall i | 0 <= i < |init| :: init[i] == rows[i];
      OneSign(init, key);
    }
  }

  /** One side first: the order in which a side that does not fit overflows. */
  lemma {:induction false} SideFirstFails(rows: seq<ImpactRow>, key: GroupKey) returns (bad: seq<ImpactRow>)
    requires !SidesFitAt(rows, key)
    ensures multiset(bad) == multiset(rows) && FirstFailure(bad).Some?
  {
    var f := if Fits(SumOf(rows, Spent(key))) then Returned(key) else Spent(key);
    WherePermutes(rows, f);
    WhereSums(rows, f);
    var first := Where(rows, f);
    OneSign(first, key);
    bad := first + Elsewhere(rows, f);
    if FirstFailure(first).None? {
      SuccessFits(first);
      assert Fits(Amount(first, key));
    }
    assert bad[..|first|] == first;
    FailureSticks(bad, |first|);
  }

  // ---- What can be reported: some order succeeds ---------------------------------------------

  /** A row whose sign turns a group back towards zero, among the rows to come. */
  ghost predicate TurnsBack(amount: int, row: ImpactRow, key: GroupKey) {
    KeyOf(row) == key && (if amount >= 0 then Reported(key)(row) <= 0 else Reported(key)(row) >= 0)
  }

  /** Where no row turns a group back, every row of it takes it towards its total. */
  lemma {:induction false} RestIsOneSided(rest: seq<ImpactRow>, i: nat, amount: int, key: GroupKey)
    requires i < |rest| && KeyOf(rest[i]) == key
    requires forall j | 0 <= j < |rest| :: !TurnsBack(amount, rest[j], key)
    ensures amount >= 0 ==> 0 <= Reported(key)(rest[i]) <= Amount(rest, key)
    ensures amount < 0 ==> Amount(rest, key) <= Reported(key)(rest[i]) <= 0
  {
    var others := rest[..i] + rest[i + 1..];
    SumWithout(rest, i, Reported(key));
    assert !TurnsBack(amount, rest[i], key);
    forall j | 0 <= j < |others|
      ensures amount >= 0 ==> Reported(key)(others[j]) >= 0
      ensures amount < 0 ==> Reported(key)(others[j]) <= 0
    {
      var at := if j < i then j else j + 1;
      assert others[j] == rest[at] && !TurnsBack(amount, rest[at], key);
    }
    OneSided(others, key);
  }

  lemma {:induction false} OneSided(rows: seq<ImpactRow>, key: GroupKey)
    ensures (forall i | 0 <= i < |rows| :: Reported(key)(rows[i]) >= 0) ==> Amount(rows, key) >= 0
    ensures (forall i | 0 <= i < |rows| :: Reported(key)(rows[i]) <= 0) ==> Amount(rows, key) <= 0
  {
    if rows != [] {
      var init := rows[..|rows| - 1];
      assert forall i | 0 <= i < |init| :: init[i] == rows[i];
      OneSided(init, key);
    }
  }

  lemma {:induction false} TurningBackFits(amount: int, row: ImpactRow, key: GroupKey)
    requires Fits(amount) && TurnsBack(amount, row, key) && row.amount.amount as int != I64_MIN
    ensures Fits(amount + Reported(key)(row))
  {
  }

  /** Where the total of a group fits, a row that takes it there fits on the way. */
  lemma {:induction false} OneSidedStepFits(rest: seq<ImpactRow>, i: nat, amount: int, key: GroupKey)
    requires i < |rest| && KeyOf(rest[i]) == key && Fits(amount) && Fits(amount + Amount(rest, key))
    requires forall j | 0 <= j < |rest| :: !TurnsBack(amount, rest[j], key)
    ensures Fits(amount + Reported(key)(rest[i]))
  {
    RestIsOneSided(rest, i, amount, key);
  }

  /** Some row to come keeps its group's amount within range. */
  lemma {:induction false} SomeStepFits(rest: seq<ImpactRow>, amount: int, key: GroupKey) returns (i: nat)
    requires rest != [] && KeyOf(rest[0]) == key && Negatable(rest)
    requires Fits(amount) && Fits(amount + Amount(rest, key))
    ensures i < |rest| && KeyOf(rest[i]) == key && Fits(amount + Reported(key)(rest[i]))
  {
    if j :| 0 <= j < |rest| && TurnsBack(amount, rest[j], key) {
      i := j;
      assert rest[j].amount.amount as int != I64_MIN;
      TurningBackFits(amount, rest[j], key);
    } else {
      i := 0;
      OneSidedStepFits(rest, 0, amount, key);
    }
  }

  lemma {:induction false} RestIsNegatable(done: seq<ImpactRow>, rest: seq<ImpactRow>)
    requires Negatable(done + rest)
    ensures Negatable(rest)
  {
    assert forall i | 0 <= i < |rest| :: rest[i] == (done + rest)[|done| + i];
  }

  /** Among the rows to come there is always one that can be added next. */
  lemma {:induction false} NextFits(done: seq<ImpactRow>, rest: seq<ImpactRow>) returns (i: nat)
    requires CanBeReported(done + rest) && FirstFailure(done).None? && rest != []
    ensures i < |rest| && FailureAt(done, rest[i]).None?
  {
    var key := KeyOf(rest[0]);
    SuccessFits(done);
    assert Fits(Amount(done, key));
    assert Fits(Amount(done + rest, key));
    SumConcat(done, rest, Reported(key));
    RestIsNegatable(done, rest);
    i := SomeStepFits(rest, Amount(done, key), key);
    assert rest[i].amount.amount as int != I64_MIN;
  }

  lemma {:induction false} Moved(done: seq<ImpactRow>, rest: seq<ImpactRow>, i: nat)
    requires i < |rest|
    ensures multiset((done + [rest[i]]) + (rest[..i] + rest[i + 1..])) == multiset(done + rest)
  {
    assert rest == rest[..i] + [rest[i]] + rest[i + 1..];
  }

  lemma {:induction false} OrderSucceeds(done: seq<ImpactRow>, rest: seq<ImpactRow>) returns (good: seq<ImpactRow>)
    requires CanBeReported(done + rest) && FirstFailure(done).None?
    ensures multiset(good) == multiset(done + rest) && FirstFailure(good).None?
    decreases |rest|
  {
    if rest == [] {
      good := done;
      assert done + rest == done;
    } else {
      var i := NextFits(done, rest);
      var left := rest[..i] + rest[i + 1..];
      FailureSnoc(done, rest[i]);
      Moved(done, rest, i);
      ReportableInAnyOrder(done + rest, (done + [rest[i]]) + left);
      good := OrderSucceeds(done + [rest[i]], left);
    }
  }

  // ---- The exact condition ------------------------------------------------------------------

  /** Rows that can be reported but whose sides do not fit have an order that groups
      and an order that overflows. */
  lemma {:induction false} MixedSidesHaveBothOrders(rows: seq<ImpactRow>) returns (good: seq<ImpactRow>, bad: seq<ImpactRow>)
    requires CanBeReported(rows) && !SidesFit(rows)
    ensures multiset(good) == multiset(bad) == multiset(rows)
    ensures FirstFailure(good).None? && FirstFailure(bad).Some?
  {
    assert [] + rows == rows;
    good := OrderSucceeds([], rows);
    var key :| !SidesFitAt(rows, key);
    bad := SideFirstFails(rows, key);
  }

  lemma {:induction false} SidesInAnyOrder(rows: seq<ImpactRow>, other: seq<ImpactRow>)
    requires multiset(rows) == multiset(other) && SidesFit(rows)
    ensures SidesFit(other)
  {
    forall key
      ensures SidesFitAt(other, key)
    {
      assert SidesFitAt(rows, key);
      SumIsOrderFree(rows, other, Spent(key));
      SumIsOrderFree(rows, other, Returned(key));
    }
  }

  ghost predicate Groups(rows: seq<ImpactRow>) {
    FirstFailure(rows).None?
  }

  /** The order of the rows decides nothing exactly when they cannot be reported at all
      or when each side of every group fits. */
  lemma {:induction false} OrderDecidesNothingIff(rows: seq<ImpactRow>)
    ensures (forall other | multiset(other) == multiset(rows) :: Groups(other) <==> Groups(rows))
       <==> !CanBeReported(rows) || SidesFit(rows)
  {
    if !CanBeReported(rows) {
      forall other | multiset(other) == multiset(rows)
        ensures !Groups(other)
      {
        NeverGroups(rows, other);
      }
      NeverGroups(rows, rows);
    } else if SidesFit(rows) {
      forall other | multiset(other) == multiset(rows)
        ensures Groups(other)
      {
        ReportableInAnyOrder(rows, other);
        SidesInAnyOrder(rows, other);
        SidesFitSucceeds(other, |other|);
        assert other[..|other|] == other;
      }
      assert Groups(rows);
    } else {
      var good, bad := MixedSidesHaveBothOrders(rows);
      assert Groups(good) && !Groups(bad);
    }
  }

  lemma {:induction false} NeverGroups(rows: seq<ImpactRow>, other: seq<ImpactRow>)
    requires multiset(other) == multiset(rows) && !CanBeReported(rows)
    ensures !Groups(other)
  {
    if Groups(other) {
      SuccessFits(other);
      ReportableInAnyOrder(other, rows);
    }
  }

  /** Outflows alone have no second side: what can be reported has sides that fit. */
  lemma {:induction false} OutflowsHaveOneSide(rows: seq<ImpactRow>)
    requires Outflows(rows) && CanBeReported(rows)
    ensures SidesFit(rows)
  {
    forall key
      ensures SidesFitAt(rows, key)
    {
      NothingReturned(rows, key);
      SidesAddUp(rows, key);
      assert Fits(Amount(rows, key));
    }
  }

  lemma {:induction false} NothingReturned(rows: seq<ImpactRow>, key: GroupKey)
    requires Outflows(rows)
    ensures SumOf(rows, Returned(key)) == 0
  {
    if rows != [] {
      var init := rows[..|rows| - 1];
      assert forall i | 0 <= i < |init| :: init[i] == rows[i];
      NothingReturned(init, key);
      assert Reported(key)(rows[|rows| - 1]) >= 0;
    }
  }
}
