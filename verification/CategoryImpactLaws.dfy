/** What grouping the impacts of a rule keeps, and what decides whether it fails. */
module CategoryImpactLaws {
  import opened Money
  import opened Sums
  import opened CategoryImpact

  // ---- The result is determined by the rows --------------------------------------------

  lemma {:induction false} LastKeyIsGreatest(lines: seq<Line>, key: GroupKey)
    requires Ascending(lines) && key in LineKeys(lines)
    ensures key == lines[|lines| - 1].key || Before(key, lines[|lines| - 1].key)
  {
  }

  lemma {:induction false} KeysWithoutLast(lines: seq<Line>)
    requires lines != [] && Ascending(lines)
    ensures LineKeys(lines[..|lines| - 1]) == LineKeys(lines) - {lines[|lines| - 1].key}
  {
    var init, last := lines[..|lines| - 1], lines[|lines| - 1];
    forall key
      ensures key in LineKeys(init) <==> key in LineKeys(lines) - {last.key}
    {
      if key in LineKeys(lines) && key != last.key {
        var i :| 0 <= i < |lines| && lines[i].key == key;
        assert init[i] == lines[i];
      }
      if key in LineKeys(init) {
        var i :| 0 <= i < |init| && init[i].key == key;
        assert lines[i] == init[i] && Before(lines[i].key, last.key);
      }
    }
  }

  lemma {:induction false} LinesHaveKeys(lines: seq<Line>)
    ensures lines == [] <==> LineKeys(lines) == {}
    ensures lines != [] ==> lines[|lines| - 1].key in LineKeys(lines)
  {
    if lines != [] {
      assert lines[|lines| - 1].key in LineKeys(lines);
    }
  }

  ghost predicate AllExact(lines: seq<Line>, rows: seq<ImpactRow>) {
    forall i | 0 <= i < |lines| :: IsExact(lines[i], rows)
  }

  lemma {:induction false} LinesAreUnique(a: seq<Line>, b: seq<Line>, rows: seq<ImpactRow>)
    requires Ascending(a) && Ascending(b) && LineKeys(a) == LineKeys(b)
    requires AllExact(a, rows) && AllExact(b, rows)
    ensures a == b
    decreases |a|
  {
    LinesHaveKeys(a);
    LinesHaveKeys(b);
    if a != [] {
      LastKeyIsGreatest(a, b[|b| - 1].key);
      LastKeyIsGreatest(b, a[|a| - 1].key);
      assert IsExact(a[|a| - 1], rows) && IsExact(b[|b| - 1], rows);
      KeysWithoutLast(a);
      KeysWithoutLast(b);
      LinesAreUnique(a[..|a| - 1], b[..|b| - 1], rows);
      assert a == a[..|a| - 1] + [a[|a| - 1]];
    }
  }

  /** The months of a list of lines, each line filed in turn. */
  function ByMonth(lines: seq<Line>): seq<Month> {
    if lines == [] then [] else WithLine(ByMonth(lines[..|lines| - 1]), lines[|lines| - 1])
  }

  lemma {:induction false} ByMonthSnoc(lines: seq<Line>, line: Line)
    ensures ByMonth(lines + [line]) == WithLine(ByMonth(lines), line)
  {
    assert (lines + [line])[..|lines|] == lines;
  }

  lemma {:induction false} MonthGrows(months: seq<Month>, month: int, moved: seq<Move>, move: Move)
    ensures WithLine(months + [Month(month, moved)], LineOf(month, move)) == months + [Month(month, moved + [move])]
  {
    assert (months + [Month(month, moved)])[..|months|] == months;
  }

  lemma {:induction false} MonthOpens(months: seq<Month>, month: int, move: Move)
    requires months != [] ==> months[|months| - 1].month != month
    ensures WithLine(months, LineOf(month, move)) == months + [Month(month, [move])]
  {
  }

  /** Filing one more move of a month behind the lines so far. */
  lemma {:induction false} OneMoreMove(lines: seq<Line>, month: int, moved: seq<Move>, move: Move)
    ensures ByMonth(lines + MonthLines(month, moved + [move])) == WithLine(ByMonth(lines + MonthLines(month, moved)), LineOf(month, move))
  {
    MonthLinesSnoc(month, moved, move);
    assert lines + MonthLines(month, moved + [move]) == (lines + MonthLines(month, moved)) + [LineOf(month, move)];
    ByMonthSnoc(lines + MonthLines(month, moved), LineOf(month, move));
  }

  ghost predicate IsRebuilt(lines: seq<Line>, month: int, moved: seq<Move>) {
    ByMonth(lines + MonthLines(month, moved)) == ByMonth(lines) + [Month(month, moved)]
  }

  lemma {:induction false} FirstMoveRebuilds(lines: seq<Line>, month: int, move: Move)
    requires ByMonth(lines) != [] ==> ByMonth(lines)[|ByMonth(lines)| - 1].month != month
    ensures IsRebuilt(lines, month, [move])
  {
    OneMoreMove(lines, month, [], move);
    assert [] + [move] == [move];
    assert lines + MonthLines(month, []) == lines;
    MonthOpens(ByMonth(lines), month, move);
  }

  lemma {:induction false} NextMoveRebuilds(lines: seq<Line>, month: int, moved: seq<Move>, move: Move)
    requires IsRebuilt(lines, month, moved)
    ensures IsRebuilt(lines, month, moved + [move])
  {
    OneMoreMove(lines, month, moved, move);
    MonthGrows(ByMonth(lines), month, moved, move);
  }

  /** Filing a month's moves one by one behind earlier months rebuilds that month. */
  lemma {:induction false} MonthIsRebuilt(lines: seq<Line>, month: int, moved: seq<Move>)
    requires ByMonth(lines) != [] ==> ByMonth(lines)[|ByMonth(lines)| - 1].month != month
    requires moved != []
    ensures IsRebuilt(lines, month, moved)
    decreases |moved|
  {
    var n := |moved| - 1;
    assert moved == moved[..n] + [moved[n]];
    if n == 0 {
      FirstMoveRebuilds(lines, month, moved[0]);
    } else {
      MonthIsRebuilt(lines, month, moved[..n]);
      NextMoveRebuilds(lines, month, moved[..n], moved[n]);
    }
  }

  /** Filing the lines of some months rebuilds those months. */
  ghost predicate AreRebuilt(months: seq<Month>) {
    ByMonth(LinesOf(months)) == months
  }

  lemma {:induction false} OneMoreMonth(init: seq<Month>, last: Month)
    requires AreRebuilt(init) && last.moved != []
    requires init != [] ==> init[|init| - 1].month != last.month
    ensures AreRebuilt(init + [last])
  {
    LinesSnoc(init, last);
    MonthIsRebuilt(LinesOf(init), last.month, last.moved);
  }

  lemma {:induction false} AscendingMonths(months: seq<Month>)
    requires MonthsAscend(months) && months != []
    ensures var init, last := months[..|months| - 1], months[|months| - 1];
      MonthsAscend(init) && last.moved != [] && (init != [] ==> init[|init| - 1].month != last.month)
  {
  }

  lemma {:induction false} MonthsAreRebuilt(months: seq<Month>)
    requires MonthsAscend(months)
    ensures AreRebuilt(months)
  {
    if months != [] {
      var init, last := months[..|months| - 1], months[|months| - 1];
      assert months == init + [last];
      AscendingMonths(months);
      MonthsAreRebuilt(init);
      OneMoreMonth(init, last);
    }
  }

  /** The rows fix the months: there is one result the grouping may return. */
  lemma {:induction false} ImpactIsDetermined(a: seq<Month>, b: seq<Month>, rows: seq<ImpactRow>)
    requires IsImpactOf(a, rows) && IsImpactOf(b, rows)
    ensures a == b
  {
    LinesAreUnique(LinesOf(a), LinesOf(b), rows);
    MonthsAreRebuilt(a);
    MonthsAreRebuilt(b);
  }

  lemma {:induction false} SameKeys(rows: seq<ImpactRow>, other: seq<ImpactRow>)
    requires multiset(rows) == multiset(other)
    ensures KeysOf(rows) <= KeysOf(other)
  {
    forall key | key in KeysOf(rows)
      ensures key in KeysOf(other)
    {
      var i :| 0 <= i < |rows| && KeyOf(rows[i]) == key;
      assert rows[i] in multiset(other);
      var j :| 0 <= j < |other| && other[j] == rows[i];
      assert KeyOf(other[j]) == key;
    }
  }

  /** The order of the rows is forgotten. */
  lemma {:induction false} ImpactIgnoresOrder(months: seq<Month>, rows: seq<ImpactRow>, other: seq<ImpactRow>)
    requires multiset(rows) == multiset(other) && IsImpactOf(months, rows)
    ensures IsImpactOf(months, other)
  {
    SameKeys(rows, other);
    SameKeys(other, rows);
    var lines := LinesOf(months);
    forall i | 0 <= i < |lines|
      ensures IsExact(lines[i], other)
    {
      SumIsOrderFree(rows, other, Reported(lines[i].key));
      SumIsOrderFree(rows, other, Counted(lines[i].key));
    }
  }

  // ---- Conservation ------------------------------------------------------------------

  function RowAmount(currency: CurrencyCode): ImpactRow -> int {
    (row: ImpactRow) => if row.amount.currency == currency then row.amount.amount as int else 0
  }

  function LineAmount(currency: CurrencyCode): Line -> int {
    (line: Line) => if line.key.currency == currency then line.amount as int else 0
  }

  function LineRows(): Line -> int {
    (line: Line) => line.rows
  }

  /** What the lines of one currency would hold if their amounts came from these rows. */
  function GroupAmount(currency: CurrencyCode, rows: seq<ImpactRow>): Line -> int {
    (line: Line) => if line.key.currency == currency then SumOf(rows, Reported(line.key)) else 0
  }

  function GroupCount(rows: seq<ImpactRow>): Line -> int {
    (line: Line) => SumOf(rows, Counted(line.key))
  }

  /** A number standing at one key, zero at every other. */
  function At(key: GroupKey, n: int): Line -> int {
    (line: Line) => if line.key == key then n else 0
  }

  lemma {:induction false} NothingElsewhere(lines: seq<Line>, key: GroupKey, n: int)
    requires key !in LineKeys(lines)
    ensures SumOf(lines, At(key, n)) == 0
  {
    if lines != [] {
      var init := lines[..|lines| - 1];
      assert forall i | 0 <= i < |init| :: init[i] == lines[i] && lines[i].key in LineKeys(lines);
      assert lines[|lines| - 1].key in LineKeys(lines);
      NothingElsewhere(init, key, n);
    }
  }

  lemma {:induction false} OnceAtItsKey(lines: seq<Line>, key: GroupKey, n: int)
    requires Ascending(lines) && key in LineKeys(lines)
    ensures SumOf(lines, At(key, n)) == n
  {
    var init, last := lines[..|lines| - 1], lines[|lines| - 1];
    KeysWithoutLast(lines);
    if last.key == key {
      NothingElsewhere(init, key, n);
    } else {
      OnceAtItsKey(init, key, n);
    }
  }

  lemma {:induction false} SumAdds(lines: seq<Line>, f: Line -> int, g: Line -> int, h: Line -> int)
    requires forall line: Line :: f(line) == g(line) + h(line)
    ensures SumOf(lines, f) == SumOf(lines, g) + SumOf(lines, h)
  {
    if lines != [] {
      SumAdds(lines[..|lines| - 1], f, g, h);
    }
  }

  lemma {:induction false} NoRowsNoAmount(lines: seq<Line>, currency: CurrencyCode)
    ensures SumOf(lines, GroupAmount(currency, [])) == 0
    ensures SumOf(lines, GroupCount([])) == 0
  {
    if lines != [] {
      NoRowsNoAmount(lines[..|lines| - 1], currency);
    }
  }

  /** Groups partition the rows, so the groups' sums add up to the rows' sum. */
  lemma {:induction false} GroupsPartition(lines: seq<Line>, rows: seq<ImpactRow>, currency: CurrencyCode)
    requires Ascending(lines) && KeysOf(rows) <= LineKeys(lines)
    ensures SumOf(lines, GroupAmount(currency, rows)) == 0 - SumOf(rows, RowAmount(currency))
    ensures SumOf(lines, GroupCount(rows)) == |rows|
    decreases |rows|
  {
    if rows == [] {
      NoRowsNoAmount(lines, currency);
    } else {
      var init, last := rows[..|rows| - 1], rows[|rows| - 1];
      assert rows == init + [last];
      KeysSnoc(init, last);
      GroupsPartition(lines, init, currency);
      var amount := if last.amount.currency == currency then 0 - last.amount.amount as int else 0;
      OnceAtItsKey(lines, KeyOf(last), amount);
      OnceAtItsKey(lines, KeyOf(last), 1);
      forall line: Line
        ensures GroupAmount(currency, rows)(line) == GroupAmount(currency, init)(line) + At(KeyOf(last), amount)(line)
        ensures GroupCount(rows)(line) == GroupCount(init)(line) + At(KeyOf(last), 1)(line)
      {
        GroupSnoc(init, last, line.key);
      }
      SumAdds(lines, GroupAmount(currency, rows), GroupAmount(currency, init), At(KeyOf(last), amount));
      SumAdds(lines, GroupCount(rows), GroupCount(init), At(KeyOf(last), 1));
    }
  }

  /** What the months report is the outflow with its sign turned, currency by
      currency, and every row is counted in exactly one move. */
  lemma {:induction false} ImpactConserves(months: seq<Month>, rows: seq<ImpactRow>, currency: CurrencyCode)
    requires IsImpactOf(months, rows)
    ensures SumOf(LinesOf(months), LineAmount(currency)) == 0 - SumOf(rows, RowAmount(currency))
    ensures SumOf(LinesOf(months), LineRows()) == |rows|
  {
    var lines := LinesOf(months);
    GroupsPartition(lines, rows, currency);
    forall line | line in lines
      ensures LineAmount(currency)(line) == GroupAmount(currency, rows)(line)
      ensures LineRows()(line) == GroupCount(rows)(line)
    {
      var i :| 0 <= i < |lines| && lines[i] == line;
      assert IsExact(lines[i], rows);
    }
    SumAgrees(lines, LineAmount(currency), GroupAmount(currency, rows));
    SumAgrees(lines, LineRows(), GroupCount(rows));
  }

  // ---- What decides a failure ---------------------------------------------------------

  ghost predicate Outflows(rows: seq<ImpactRow>) {
    forall i | 0 <= i < |rows| :: rows[i].amount.amount <= 0
  }

  ghost predicate Negatable(rows: seq<ImpactRow>) {
    forall i | 0 <= i < |rows| :: rows[i].amount.amount as int != I64_MIN
  }

  ghost predicate EveryGroupFits(rows: seq<ImpactRow>) {
    forall key :: Fits(Amount(rows, key))
  }

  ghost predicate CanBeReported(rows: seq<ImpactRow>) {
    Negatable(rows) && EveryGroupFits(rows) && |rows| <= U64_MAX
  }

  /** Success never says less than that the whole can be reported. */
  lemma {:induction false} SuccessFits(rows: seq<ImpactRow>)
    requires FirstFailure(rows).None?
    ensures CanBeReported(rows)
  {
    if rows != [] {
      var init, last := rows[..|rows| - 1], rows[|rows| - 1];
      assert rows == init + [last];
      SuccessFits(init);
      forall key
        ensures Fits(Amount(rows, key))
      {
        GroupSnoc(init, last, key);
        assert Fits(Amount(init, key));
      }
    }
  }

  lemma {:induction false} OutflowsOnlyAddUp(rows: seq<ImpactRow>, key: GroupKey)
    requires Outflows(rows) && rows != []
    ensures 0 <= Amount(rows[..|rows| - 1], key) <= Amount(rows, key)
  {
    assert NonNegative(rows, Reported(key));
    SumOfPrefix(rows, |rows| - 1, Reported(key));
  }

  /** For outflows the order of the rows decides nothing: they group exactly when
      every amount can be negated, every group's total is an amount, and the rows
      can be counted. */
  lemma {:induction false} OutflowsFailIff(rows: seq<ImpactRow>)
    requires Outflows(rows)
    ensures FirstFailure(rows).None? <==> CanBeReported(rows)
  {
    if CanBeReported(rows) && rows != [] {
      var init, last := rows[..|rows| - 1], rows[|rows| - 1];
      assert rows == init + [last];
      forall key
        ensures Fits(Amount(init, key))
      {
        OutflowsOnlyAddUp(rows, key);
        assert Fits(Amount(rows, key));
      }
      assert forall i | 0 <= i < |init| :: init[i] == rows[i];
      OutflowsFailIff(init);
      GroupSnoc(init, last, KeyOf(last));
      assert Fits(Amount(rows, KeyOf(last)));
      assert rows[|rows| - 1].amount.amount as int != I64_MIN;
    }
    if FirstFailure(rows).None? {
      SuccessFits(rows);
    }
  }

  lemma {:induction false} ReportableInAnyOrder(rows: seq<ImpactRow>, other: seq<ImpactRow>)
    requires multiset(rows) == multiset(other) && CanBeReported(rows)
    ensures CanBeReported(other)
  {
    forall i | 0 <= i < |other|
      ensures other[i].amount.amount as int != I64_MIN
    {
      assert other[i] in multiset(rows);
      var j :| 0 <= j < |rows| && rows[j] == other[i];
    }
    assert |rows| == |multiset(rows)| == |other|;
    forall key
      ensures Fits(Amount(other, key))
    {
      assert Fits(Amount(rows, key));
      SumIsOrderFree(rows, other, Reported(key));
    }
  }

  /** For outflows any order groups or none does. */
  lemma {:induction false} OutflowsFailTogether(rows: seq<ImpactRow>, other: seq<ImpactRow>)
    requires Outflows(rows) && multiset(rows) == multiset(other)
    ensures FirstFailure(rows).None? <==> FirstFailure(other).None?
  {
    OutflowsInAnyOrder(rows, other);
    OutflowsFailIff(rows);
    OutflowsFailIff(other);
    if CanBeReported(rows) {
      ReportableInAnyOrder(rows, other);
    }
    if CanBeReported(other) {
      ReportableInAnyOrder(other, rows);
    }
  }

  lemma {:induction false} OutflowsInAnyOrder(rows: seq<ImpactRow>, other: seq<ImpactRow>)
    requires Outflows(rows) && multiset(rows) == multiset(other)
    ensures Outflows(other)
  {
    forall i | 0 <= i < |other|
      ensures other[i].amount.amount <= 0
    {
      assert other[i] in multiset(rows);
      var j :| 0 <= j < |rows| && rows[j] == other[i];
    }
  }
}
