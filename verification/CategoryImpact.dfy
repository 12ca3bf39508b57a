/** The months a category rule would move money between (`group_category_impacts`). */
module CategoryImpact {
  import opened Outcomes
  import opened Money
  import opened Sums

  const U64_MAX := 0xFFFF_FFFF_FFFF_FFFF

  /** One outflow whose category changes; an outflow is a negative amount. */
  datatype ImpactRow = ImpactRow(month: int, was: Option<int>, now: int, amount: Money)

  datatype GroupKey = GroupKey(month: int, was: Option<int>, now: int, currency: CurrencyCode)

  datatype Move = Move(was: Option<int>, now: int, amount: Money, rows: nat)

  datatype Month = Month(month: int, moved: seq<Move>)

  datatype Impact = Impact(rows: nat, months: seq<Month>)

  datatype ImpactError = MoneyFailed(error: MoneyError) | CountOverflow

  function KeyOf(row: ImpactRow): GroupKey {
    GroupKey(row.month, row.was, row.now, row.amount.currency)
  }

  // ---- Key order ------------------------------------------------------------------

  predicate WasBefore(a: Option<int>, b: Option<int>) {
    b.Some? && (a.None? || a.value < b.value)
  }

  /** The order of the grouped map: month, old category, new category, currency. */
  predicate Before(a: GroupKey, b: GroupKey) {
    a.month < b.month
    || (a.month == b.month && (WasBefore(a.was, b.was)
                               || (a.was == b.was && (a.now < b.now
                                                      || (a.now == b.now && CurrencyRank(a.currency) < CurrencyRank(b.currency))))))
  }

  lemma {:induction false} BeforeIsTotal(a: GroupKey, b: GroupKey)
    ensures a == b || Before(a, b) || Before(b, a)
  {
    if CurrencyRank(a.currency) == CurrencyRank(b.currency) {
      assert a.currency == b.currency;
    }
  }

  predicate IsFirst(k: GroupKey, keys: set<GroupKey>) {
    k in keys && forall j | j in keys && j != k :: Before(k, j)
  }

  lemma {:induction false} FirstExists(keys: set<GroupKey>) returns (k: GroupKey)
    requires keys != {}
    ensures IsFirst(k, keys)
    decreases |keys|
  {
    var j :| j in keys;
    if keys == {j} {
      k := j;
    } else {
      var rest := keys - {j};
      assert keys == rest + {j};
      var r := FirstExists(rest);
      BeforeIsTotal(j, r);
      k := if Before(j, r) then j else r;
    }
  }

  // ---- Exact sums -----------------------------------------------------------------

  /** What a row reports for a group: the outflow with its sign turned. */
  function Reported(key: GroupKey): ImpactRow -> int {
    (row: ImpactRow) => if KeyOf(row) == key then 0 - row.amount.amount as int else 0
  }

  function Counted(key: GroupKey): ImpactRow -> int {
    (row: ImpactRow) => if KeyOf(row) == key then 1 else 0
  }

  ghost function Amount(rows: seq<ImpactRow>, key: GroupKey): int {
    SumOf(rows, Reported(key))
  }

  ghost function Count(rows: seq<ImpactRow>, key: GroupKey): int {
    SumOf(rows, Counted(key))
  }

  ghost function KeysOf(rows: seq<ImpactRow>): set<GroupKey> {
    set i | 0 <= i < |rows| :: KeyOf(rows[i])
  }

  lemma {:induction false} GroupSnoc(rows: seq<ImpactRow>, row: ImpactRow, key: GroupKey)
    ensures Amount(rows + [row], key) == Amount(rows, key) + Reported(key)(row)
    ensures Count(rows + [row], key) == Count(rows, key) + Counted(key)(row)
  {
    SumSnoc(rows, row, Reported(key));
    SumSnoc(rows, row, Counted(key));
  }

  lemma {:induction false} KeysSnoc(rows: seq<ImpactRow>, row: ImpactRow)
    ensures KeysOf(rows + [row]) == KeysOf(rows) + {KeyOf(row)}
  {
    var extended := rows + [row];
    forall key
      ensures key in KeysOf(extended) <==> key in KeysOf(rows) + {KeyOf(row)}
    {
      if key in KeysOf(rows) {
        var i :| 0 <= i < |rows| && KeyOf(rows[i]) == key;
        assert extended[i] == rows[i];
      }
      assert extended[|rows|] == row;
    }
  }

  lemma {:induction false} CountIsBounded(rows: seq<ImpactRow>, key: GroupKey)
    ensures 0 <= Count(rows, key) <= |rows|
    ensures key !in KeysOf(rows) ==> Count(rows, key) == 0 && Amount(rows, key) == 0
  {
    if rows != [] {
      var init, last := rows[..|rows| - 1], rows[|rows| - 1];
      assert rows == init + [last];
      CountIsBounded(init, key);
      GroupSnoc(init, last, key);
      KeysSnoc(init, last);
    }
  }

  // ---- Failure -------------------------------------------------------------------------

  /** Why one more row cannot be grouped, tried in the order the code tries it. */
  ghost function FailureAt(done: seq<ImpactRow>, row: ImpactRow): Option<ImpactError> {
    if !Fits(0 - row.amount.amount as int) then Some(MoneyFailed(Overflow))
    else if !Fits(Amount(done, KeyOf(row)) - row.amount.amount as int) then Some(MoneyFailed(Overflow))
    else if |done| >= U64_MAX then Some(CountOverflow)
    else None
  }

  /** The failure of the first row that has one. */
  ghost function FirstFailure(rows: seq<ImpactRow>): Option<ImpactError> {
    if rows == [] then None
    else
      var init := rows[..|rows| - 1];
      match FirstFailure(init)
      case Some(e) => Some(e)
      case None => FailureAt(init, rows[|rows| - 1])
  }

  lemma {:induction false} FailureSnoc(rows: seq<ImpactRow>, row: ImpactRow)
    ensures FirstFailure(rows + [row]) == if FirstFailure(rows).Some? then FirstFailure(rows) else FailureAt(rows, row)
  {
    assert (rows + [row])[..|rows|] == rows;
  }

  lemma {:induction false} FailureSticks(rows: seq<ImpactRow>, n: nat)
    requires n <= |rows| && FirstFailure(rows[..n]).Some?
    ensures FirstFailure(rows) == FirstFailure(rows[..n])
  {
    if n < |rows| {
      assert rows[..|rows| - 1][..n] == rows[..n];
      FailureSticks(rows[..|rows| - 1], n);
    } else {
      assert rows[..n] == rows;
    }
  }

  // ---- The fold -----------------------------------------------------------------------

  datatype Group = Group(amount: Money, rows: nat)

  ghost predicate Holds(group: Group, rows: seq<ImpactRow>, key: GroupKey) {
    && group.amount.currency == key.currency
    && group.amount.amount as int == Amount(rows, key)
    && group.rows == Count(rows, key)
  }

  ghost predicate Grouped(grouped: map<GroupKey, Group>, rows: seq<ImpactRow>) {
    && grouped.Keys == KeysOf(rows)
    && forall key | key in grouped :: Holds(grouped[key], rows, key)
  }

  /** Add one row to its group. */
  method AddRow(grouped: map<GroupKey, Group>, row: ImpactRow, total: nat, ghost done: seq<ImpactRow>)
    returns (r: Result<map<GroupKey, Group>, ImpactError>)
    requires Grouped(grouped, done) && total == |done| <= U64_MAX
    ensures r.Ok? ==> FailureAt(done, row).None? && Grouped(r.value, done + [row])
    ensures r.Err? ==> FailureAt(done, row) == Some(r.error)
  {
    var negated := row.amount.CheckedNegate();
    if negated.Err? {
      return Err(MoneyFailed(negated.error));
    }
    var key := GroupKey(row.month, row.was, row.now, negated.value.currency);
    CountIsBounded(done, key);
    var group := if key in grouped then grouped[key] else Group(Zero(key.currency), 0);
    var sum := group.amount.TryAdd(negated.value);
    if sum.Err? {
      return Err(MoneyFailed(sum.error));
    }
    if group.rows >= U64_MAX || total >= U64_MAX {
      return Err(CountOverflow);
    }
    r := Ok(grouped[key := Group(sum.value, group.rows + 1)]);
    KeysSnoc(done, row);
    forall k | k in r.value
      ensures Holds(r.value[k], done + [row], k)
    {
      GroupSnoc(done, row, k);
    }
  }

  // ---- The lines of a result -----------------------------------------------------------

  /** One move with the month it is filed under. */
  datatype Line = Line(key: GroupKey, amount: PostedMinor, rows: nat)

  function LineOf(month: int, move: Move): Line {
    Line(GroupKey(month, move.was, move.now, move.amount.currency), move.amount.amount, move.rows)
  }

  function MoveOf(line: Line): Move {
    Move(line.key.was, line.key.now, Money(line.amount, line.key.currency), line.rows)
  }

  function MonthLines(month: int, moved: seq<Move>): seq<Line> {
    if moved == [] then [] else MonthLines(month, moved[..|moved| - 1]) + [LineOf(month, moved[|moved| - 1])]
  }

  function LinesOf(months: seq<Month>): seq<Line> {
    if months == [] then []
    else
      var last := months[|months| - 1];
      LinesOf(months[..|months| - 1]) + MonthLines(last.month, last.moved)
  }

  ghost predicate Ascending(lines: seq<Line>) {
    forall i, j | 0 <= i < j < |lines| :: Before(lines[i].key, lines[j].key)
  }

  ghost function LineKeys(lines: seq<Line>): set<GroupKey> {
    set i | 0 <= i < |lines| :: lines[i].key
  }

  ghost predicate IsExact(line: Line, rows: seq<ImpactRow>) {
    line.amount as int == Amount(rows, line.key) && line.rows == Count(rows, line.key)
  }

  /** The lines of some rows: one per group, in key order, with the group's exact sums. */
  ghost predicate Lists(lines: seq<Line>, rows: seq<ImpactRow>) {
    && Ascending(lines)
    && LineKeys(lines) == KeysOf(rows)
    && forall i | 0 <= i < |lines| :: IsExact(lines[i], rows)
  }

  ghost predicate MonthsAscend(months: seq<Month>) {
    && (forall i, j | 0 <= i < j < |months| :: months[i].month < months[j].month)
    && (forall i | 0 <= i < |months| :: months[i].moved != [])
  }

  ghost predicate IsImpactOf(months: seq<Month>, rows: seq<ImpactRow>) {
    Lists(LinesOf(months), rows) && MonthsAscend(months)
  }

  /** The months so far with one more line: in the last month, or in a new one. */
  function WithLine(months: seq<Month>, line: Line): seq<Month> {
    if months != [] && months[|months| - 1].month == line.key.month then
      var last := months[|months| - 1];
      months[..|months| - 1] + [Month(last.month, last.moved + [MoveOf(line)])]
    else months + [Month(line.key.month, [MoveOf(line)])]
  }

  lemma {:induction false} LinesSnoc(months: seq<Month>, month: Month)
    ensures LinesOf(months + [month]) == LinesOf(months) + MonthLines(month.month, month.moved)
  {
    assert (months + [month])[..|months|] == months;
  }

  lemma {:induction false} MonthLinesSnoc(month: int, moved: seq<Move>, move: Move)
    ensures MonthLines(month, moved + [move]) == MonthLines(month, moved) + [LineOf(month, move)]
  {
    assert (moved + [move])[..|moved|] == moved;
  }

  lemma {:induction false} LineIsAppended(months: seq<Month>, line: Line)
    ensures LinesOf(WithLine(months, line)) == LinesOf(months) + [line]
  {
    if months != [] && months[|months| - 1].month == line.key.month {
      var last := months[|months| - 1];
      LinesSnoc(months[..|months| - 1], Month(last.month, last.moved + [MoveOf(line)]));
      MonthLinesSnoc(last.month, last.moved, MoveOf(line));
    } else {
      LinesSnoc(months, Month(line.key.month, [MoveOf(line)]));
      MonthLinesSnoc(line.key.month, [], MoveOf(line));
      assert [] + [MoveOf(line)] == [MoveOf(line)];
      assert MonthLines(line.key.month, []) + [line] == [line];
    }
  }

  lemma {:induction false} LastLine(months: seq<Month>)
    requires MonthsAscend(months) && months != []
    ensures LinesOf(months) != [] && LinesOf(months)[|LinesOf(months)| - 1].key.month == months[|months| - 1].month
  {
  }

  /** A line that keeps the lines ascending is of the last month or of a later one. */
  lemma {:induction false} LineIsNotEarlier(months: seq<Month>, line: Line)
    requires MonthsAscend(months) && months != [] && Ascending(LinesOf(months) + [line])
    ensures months[|months| - 1].month <= line.key.month
  {
    LastLine(months);
    var lines := LinesOf(months) + [line];
    assert Before(lines[|lines| - 2].key, lines[|lines| - 1].key);
  }

  lemma {:induction false} WithLineAscends(months: seq<Month>, line: Line)
    requires MonthsAscend(months)
    requires months != [] ==> months[|months| - 1].month <= line.key.month
    ensures MonthsAscend(WithLine(months, line))
  {
  }

  lemma {:induction false} AscendingSnoc(lines: seq<Line>, line: Line, left: set<GroupKey>)
    requires Ascending(lines) && IsFirst(line.key, left)
    requires forall i, k | 0 <= i < |lines| && k in left :: Before(lines[i].key, k)
    ensures Ascending(lines + [line])
    ensures forall i, k | 0 <= i < |lines + [line]| && k in left - {line.key} :: Before((lines + [line])[i].key, k)
    ensures LineKeys(lines + [line]) == LineKeys(lines) + {line.key}
  {
    var extended := lines + [line];
    forall key
      ensures key in LineKeys(extended) <==> key in LineKeys(lines) + {line.key}
    {
      if key in LineKeys(lines) {
        var i :| 0 <= i < |lines| && lines[i].key == key;
        assert extended[i] == lines[i];
      }
      assert extended[|lines|] == line;
    }
  }

  /** The lines are the exact ones of some of the keys, all before those left. */
  ghost predicate Listed(lines: seq<Line>, left: set<GroupKey>, keys: set<GroupKey>, rows: seq<ImpactRow>) {
    && left <= keys && LineKeys(lines) == keys - left
    && Ascending(lines)
    && (forall i, k | 0 <= i < |lines| && k in left :: Before(lines[i].key, k))
    && forall i | 0 <= i < |lines| :: IsExact(lines[i], rows)
  }

  ghost predicate Filed(months: seq<Month>, left: set<GroupKey>, keys: set<GroupKey>, rows: seq<ImpactRow>) {
    Listed(LinesOf(months), left, keys, rows) && MonthsAscend(months)
  }

  lemma {:induction false} ListNext(lines: seq<Line>, line: Line, left: set<GroupKey>, keys: set<GroupKey>, rows: seq<ImpactRow>)
    requires Listed(lines, left, keys, rows) && IsFirst(line.key, left) && IsExact(line, rows)
    ensures Listed(lines + [line], left - {line.key}, keys, rows)
  {
    AscendingSnoc(lines, line, left);
    assert LineKeys(lines + [line]) == keys - (left - {line.key});
    forall i | 0 <= i < |lines + [line]|
      ensures IsExact((lines + [line])[i], rows)
    {
      assert i < |lines| ==> (lines + [line])[i] == lines[i];
    }
  }

  lemma {:induction false} FileNext(months: seq<Month>, line: Line, left: set<GroupKey>, keys: set<GroupKey>, rows: seq<ImpactRow>)
    requires Filed(months, left, keys, rows) && IsFirst(line.key, left) && IsExact(line, rows)
    ensures Filed(WithLine(months, line), left - {line.key}, keys, rows)
  {
    ListNext(LinesOf(months), line, left, keys, rows);
    LineIsAppended(months, line);
    if months != [] {
      LineIsNotEarlier(months, line);
    }
    WithLineAscends(months, line);
  }

  /** Read the groups in key order and file each under its month. */
  method Months(grouped: map<GroupKey, Group>, ghost rows: seq<ImpactRow>) returns (months: seq<Month>)
    requires Grouped(grouped, rows)
    ensures IsImpactOf(months, rows)
  {
    months := [];
    var left := grouped.Keys;
    while left != {}
      invariant Filed(months, left, grouped.Keys, rows)
      decreases left
    {
      var key := TakeFirst(left);
      var line := Line(key, grouped[key].amount.amount, grouped[key].rows);
      assert Holds(grouped[key], rows, key);
      FileNext(months, line, left, grouped.Keys, rows);
      months := WithLine(months, line);
      left := left - {key};
    }
  }

  method TakeFirst(left: set<GroupKey>) returns (key: GroupKey)
    requires left != {}
    ensures IsFirst(key, left)
  {
    assert exists k :: IsFirst(k, left) by {
      var k := FirstExists(left);
    }
    key :| IsFirst(key, left);
  }

  /** Rows in, months out: every group once, in order, with its exact amount and
      count; or the failure of the first row that has one. */
  method GroupImpacts(rows: seq<ImpactRow>) returns (r: Result<Impact, ImpactError>)
    ensures r.Err? <==> FirstFailure(rows).Some?
    ensures r.Err? ==> FirstFailure(rows) == Some(r.error)
    ensures r.Ok? ==> r.value.rows == |rows| && IsImpactOf(r.value.months, rows)
  {
    var grouped: map<GroupKey, Group> := map[];
    var total: nat := 0;
    for i := 0 to |rows|
      invariant total == i <= U64_MAX
      invariant Grouped(grouped, rows[..i]) && FirstFailure(rows[..i]).None?
    {
      assert rows[..i + 1] == rows[..i] + [rows[i]];
      FailureSnoc(rows[..i], rows[i]);
      var step := AddRow(grouped, rows[i], total, rows[..i]);
      if step.Err? {
        FailureSticks(rows, i + 1);
        return Err(step.error);
      }
      grouped := step.value;
      total := total + 1;
    }
    assert rows[..|rows|] == rows;
    var months := Months(grouped, rows);
    r := Ok(Impact(total, months));
  }
}
