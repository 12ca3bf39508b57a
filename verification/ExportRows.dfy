/** One row of the bank's operations export, as the importer reads it.

    A row is identified by its position in the file, which is what the
    importer's `id(row)` tables stand for. An amount is the exact decimal the
    account-currency column prints, counted in the last decimal place the file
    uses; a moment is a number of seconds, because the export prints nothing
    finer. `legend` is the description without the
    white space around it, the only form the importer ever compares. */
module ExportRows {

  datatype Row = Row(
    account: string,
    moment: int,
    amount: int,
    category: string,
    ownerCategory: string,
    description: string,
    legend: string,
    raw: string)

  const SECONDS_IN_A_DAY := 86400

  /** The calendar day of a row. */
  function DayOf(row: Row): int {
    row.moment / SECONDS_IN_A_DAY
  }

  const INTERNAL_TRANSFER := "Между своими счетами"

  predicate IsInternalTransfer(row: Row) {
    row.legend == INTERNAL_TRANSFER
  }

  /** Where a row stands before any pairing: a leg of an internal transfer is
      sorted by its sign, and a leg of no amount at all is on neither side. */
  datatype Kind = Ordinary | OutgoingLeg | IncomingLeg | ZeroLeg

  function KindOf(row: Row): Kind {
    if !IsInternalTransfer(row) then Ordinary
    else if row.amount < 0 then OutgoingLeg
    else if row.amount > 0 then IncomingLeg
    else ZeroLeg
  }

  function Abs(x: int): (magnitude: int)
    ensures magnitude >= 0 && (magnitude == x || magnitude == -x)
  {
    if x < 0 then -x else x
  }

  /** The first `n` positions, in file order. */
  function Positions(n: nat): (ps: seq<nat>)
    ensures |ps| == n && forall i | 0 <= i < n :: ps[i] == i
  {
    seq(n, i => i)
  }

  /** Positions below `n` of the rows of one kind, in file order. */
  function Select(rows: seq<Row>, kind: Kind, n: nat): (ps: seq<nat>)
    requires n <= |rows|
    ensures forall i | 0 <= i < |ps| :: ps[i] < n && KindOf(rows[ps[i]]) == kind
  {
    if n == 0 then []
    else
      var before := Select(rows, kind, n - 1);
      if KindOf(rows[n - 1]) == kind then before + [n - 1] else before
  }

  /** Internal legs whose amount is zero, which the pairing leaves out of both lists. */
  function ZeroLegs(rows: seq<Row>): seq<nat> {
    Select(rows, ZeroLeg, |rows|)
  }

  lemma {:induction false} PositionsSnoc(n: nat)
    ensures Positions(n + 1) == Positions(n) + [n]
  {
  }

  ghost function One(n: nat): multiset<nat> {
    multiset{n}
  }

  lemma {:induction false} SelectStep(rows: seq<Row>, kind: Kind, n: nat)
    requires 0 < n <= |rows|
    ensures multiset(Select(rows, kind, n))
         == multiset(Select(rows, kind, n - 1)) + if KindOf(rows[n - 1]) == kind then One(n - 1) else multiset{}
  {
  }

  ghost function AllKinds(rows: seq<Row>, n: nat): multiset<nat>
    requires n <= |rows|
  {
    multiset(Select(rows, Ordinary, n)) + multiset(Select(rows, OutgoingLeg, n))
    + multiset(Select(rows, IncomingLeg, n)) + multiset(Select(rows, ZeroLeg, n))
  }

  lemma {:induction false} OneOfFour(a: multiset<nat>, b: multiset<nat>, c: multiset<nat>, d: multiset<nat>, x: multiset<nat>)
    ensures (a + x) + b + c + d == a + b + c + d + x
    ensures a + (b + x) + c + d == a + b + c + d + x
    ensures a + b + (c + x) + d == a + b + c + d + x
  {
  }

  lemma {:induction false} AllKindsStep(rows: seq<Row>, n: nat, kind: Kind)
    requires 0 < n <= |rows| && kind == KindOf(rows[n - 1])
    ensures AllKinds(rows, n) == AllKinds(rows, n - 1) + One(n - 1)
  {
    SelectStep(rows, Ordinary, n);
    SelectStep(rows, OutgoingLeg, n);
    SelectStep(rows, IncomingLeg, n);
    SelectStep(rows, ZeroLeg, n);
    OneOfFour(multiset(Select(rows, Ordinary, n - 1)), multiset(Select(rows, OutgoingLeg, n - 1)),
              multiset(Select(rows, IncomingLeg, n - 1)), multiset(Select(rows, ZeroLeg, n - 1)), One(n - 1));
  }

  /** The four kinds partition the file. */
  lemma {:induction false} KindsPartition(rows: seq<Row>, n: nat)
    requires n <= |rows|
    ensures AllKinds(rows, n) == multiset(Positions(n))
  {
    if n == 0 {
      assert AllKinds(rows, 0) == multiset{};
    } else {
      KindsPartition(rows, n - 1);
      PositionsSnoc(n - 1);
      AllKindsStep(rows, n, KindOf(rows[n - 1]));
    }
  }
}
