/** The grouped impact of a rule read back against its rows: which rows a reported move
    stands for, that no row stands in two, and in what order moves are reported. */
module CategoryImpactRows {
  import opened Outcomes
  import opened Money
  import opened Sums
  import opened CategoryImpact

  /** The row is of the move's month, categories and currency. */
  predicate IsOf(row: ImpactRow, month: int, move: Move) {
    row.month == month && row.was == move.was && row.now == move.now && row.amount.currency == move.amount.currency
  }

  function OutflowTerm(month: int, move: Move): ImpactRow -> int {
    (row: ImpactRow) => if IsOf(row, month, move) then -(row.amount.amount as int) else 0
  }

  function RowTerm(month: int, move: Move): ImpactRow -> int {
    (row: ImpactRow) => if IsOf(row, month, move) then 1 else 0
  }

  lemma {:induction false} MonthLineAt(month: int, moved: seq<Move>, j: nat)
    requires j < |moved|
    ensures |MonthLines(month, moved)| == |moved| && MonthLines(month, moved)[j] == LineOf(month, moved[j])
    decreases |moved|
  {
    var init := moved[..|moved| - 1];
    if j < |init| {
      MonthLineAt(month, init, j);
    } else if init != [] {
      MonthLineAt(month, init, 0);
    }
  }

  /** The line of a move stands behind the lines of the earlier months and moves. */
  lemma {:induction false} LineAt(months: seq<Month>, i: nat, j: nat)
    requires i < |months| && j < |months[i].moved|
    ensures var n := |LinesOf(months[..i])| + j;
      n < |LinesOf(months)| && LinesOf(months)[n] == LineOf(months[i].month, months[i].moved[j])
  {
    var init, last := months[..|months| - 1], months[|months| - 1];
    if i < |init| {
      LineAt(init, i, j);
      assert init[..i] == months[..i];
    } else {
      MonthLineAt(last.month, last.moved, j);
    }
  }

  lemma {:induction false} MoveOfLine(months: seq<Month>, n: nat) returns (i: nat, j: nat)
    requires n < |LinesOf(months)|
    ensures i < |months| && j < |months[i].moved| && LinesOf(months)[n] == LineOf(months[i].month, months[i].moved[j])
  {
    var init, last := months[..|months| - 1], months[|months| - 1];
    var before := LinesOf(init);
    if n < |before| {
      i, j := MoveOfLine(init, n);
    } else {
      i, j := |init|, n - |before|;
      LengthOfMonth(last.month, last.moved);
      MonthLineAt(last.month, last.moved, j);
    }
  }

  lemma {:induction false} LengthOfMonth(month: int, moved: seq<Move>)
    ensures |MonthLines(month, moved)| == |moved|
  {
    if moved != [] {
      MonthLineAt(month, moved, 0);
    }
  }

  lemma {:induction false} KeyIsOf(row: ImpactRow, month: int, move: Move)
    ensures KeyOf(row) == LineOf(month, move).key <==> IsOf(row, month, move)
  {
  }

  lemma {:induction false} MoveIsExact(month: int, move: Move, rows: seq<ImpactRow>)
    requires IsExact(LineOf(month, move), rows)
    ensures move.amount.amount as int == SumOf(rows, OutflowTerm(month, move))
    ensures move.rows == SumOf(rows, RowTerm(month, move))
  {
    var key := LineOf(month, move).key;
    forall row | row in rows
      ensures OutflowTerm(month, move)(row) == Reported(key)(row) && RowTerm(month, move)(row) == Counted(key)(row)
    {
      KeyIsOf(row, month, move);
    }
    SumAgrees(rows, OutflowTerm(month, move), Reported(key));
    SumAgrees(rows, RowTerm(month, move), Counted(key));
  }

  /** A reported move is the negated amounts and the number of the rows of its month,
      categories and currency, of which there is at least one. */
  lemma {:induction false} MovesAreOfRows(months: seq<Month>, rows: seq<ImpactRow>, i: nat, j: nat)
    requires IsImpactOf(months, rows) && i < |months| && j < |months[i].moved|
    ensures var month, move := months[i].month, months[i].moved[j];
      && move.amount.amount as int == SumOf(rows, OutflowTerm(month, move))
      && move.rows == SumOf(rows, RowTerm(month, move))
      && exists row | row in rows :: IsOf(row, month, move)
  {
    var month, move := months[i].month, months[i].moved[j];
    LineAt(months, i, j);
    var n := |LinesOf(months[..i])| + j;
    assert IsExact(LinesOf(months)[n], rows);
    MoveIsExact(month, move, rows);
    assert LinesOf(months)[n].key in LineKeys(LinesOf(months));
    var r :| 0 <= r < |rows| && KeyOf(rows[r]) == LineOf(month, move).key;
    KeyIsOf(rows[r], month, move);
  }

  /** Every row is of some move. */
  lemma {:induction false} EveryRowIsMoved(months: seq<Month>, rows: seq<ImpactRow>, row: ImpactRow) returns (i: nat, j: nat)
    requires IsImpactOf(months, rows) && row in rows
    ensures i < |months| && j < |months[i].moved| && IsOf(row, months[i].month, months[i].moved[j])
  {
    var lines := LinesOf(months);
    assert KeyOf(row) in LineKeys(lines);
    var n :| 0 <= n < |lines| && lines[n].key == KeyOf(row);
    i, j := MoveOfLine(months, n);
    KeyIsOf(row, months[i].month, months[i].moved[j]);
  }

  /** Within a month a move comes before another: by the old category, none first, then
      by the new one, then by currency in its declared order. */
  predicate ComesBefore(a: Move, b: Move) {
    || (a.was.None? && b.was.Some?)
    || (a.was.Some? && b.was.Some? && a.was.value < b.was.value)
    || (a.was == b.was && a.now < b.now)
    || (a.was == b.was && a.now == b.now && CurrencyRank(a.amount.currency) < CurrencyRank(b.amount.currency))
  }

  /** Months come in order, and the moves of a month do. */
  lemma {:induction false} MovesComeInOrder(months: seq<Month>, rows: seq<ImpactRow>)
    requires IsImpactOf(months, rows)
    ensures forall i, k | 0 <= i < k < |months| :: months[i].month < months[k].month
    ensures forall i, j, l | 0 <= i < |months| && 0 <= j < l < |months[i].moved| ::
              ComesBefore(months[i].moved[j], months[i].moved[l])
  {
    forall i, j, l | 0 <= i < |months| && 0 <= j < l < |months[i].moved|
      ensures ComesBefore(months[i].moved[j], months[i].moved[l])
    {
      LineAt(months, i, j);
      LineAt(months, i, l);
      var n := |LinesOf(months[..i])|;
      assert Before(LinesOf(months)[n + j].key, LinesOf(months)[n + l].key);
    }
  }

  lemma {:induction false} OneMonth(months: seq<Month>, i: nat, k: nat)
    requires MonthsAscend(months) && i < |months| && k < |months| && months[i].month == months[k].month
    ensures i == k
  {
  }

  lemma {:induction false} OneMove(moved: seq<Move>, j: nat, l: nat)
    requires forall a, b | 0 <= a < b < |moved| :: ComesBefore(moved[a], moved[b])
    requires j < |moved| && l < |moved| && !ComesBefore(moved[j], moved[l]) && !ComesBefore(moved[l], moved[j])
    ensures j == l
  {
  }

  /** No row is of two moves. */
  lemma {:induction false} NoRowIsMovedTwice(months: seq<Month>, rows: seq<ImpactRow>, row: ImpactRow, i: nat, j: nat, k: nat, l: nat)
    requires IsImpactOf(months, rows) && i < |months| && j < |months[i].moved| && k < |months| && l < |months[k].moved|
    requires IsOf(row, months[i].month, months[i].moved[j]) && IsOf(row, months[k].month, months[k].moved[l])
    ensures i == k && j == l
  {
    MovesComeInOrder(months, rows);
    OneMonth(months, i, k);
    OneMove(months[i].moved, j, l);
  }
}
