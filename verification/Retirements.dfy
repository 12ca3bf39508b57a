/** The owner's retirement declarations: the rules that accept them, and the
    append-only history they are recorded in, one revision a statement. */
module Retirements {
  import opened Outcomes

  const U32_MAX := 0xFFFF_FFFF

  /** The next revision. At the end of the width it stops rather than wraps. */
  function Successor(revision: nat): nat {
    if revision >= U32_MAX then U32_MAX else revision + 1
  }

  datatype Refusal =
    | AlreadyRetired(effectiveOn: int)
    | NotRetired
    | NotYetCeased(effectiveOn: int, today: int)

  function AcceptRetirement(current: Option<int>, effectiveOn: int, today: int): Result<(), Refusal> {
    if current.Some? then Err(AlreadyRetired(current.value))
    else if effectiveOn > today then Err(NotYetCeased(effectiveOn, today))
    else Ok(())
  }

  function AcceptWithdrawal(current: Option<int>): Result<(), Refusal> {
    if current.None? then Err(NotRetired) else Ok(())
  }

  /** Whether a product that ceased on one day has ceased by another: that day included. */
  predicate InForceOn(effectiveOn: int, asOf: int) {
    effectiveOn <= asOf
  }

  // ---- The stored history ------------------------------------------------------------

  /** One statement: an effective date, or none where it withdraws the one before it. */
  datatype Row = Row(revision: nat, account: int, effectiveOn: Option<int>)

  function Greater(a: nat, b: nat): nat {
    if a < b then b else a
  }

  /** The greatest revision in the table, zero when it is empty. */
  function Head(table: seq<Row>): nat {
    if table == [] then 0 else Greater(Head(table[..|table| - 1]), table[|table| - 1].revision)
  }

  /** The row of greatest revision among those of an account up to a revision. */
  function NewestAt(table: seq<Row>, account: int, revision: nat): Option<Row> {
    if table == [] then None
    else
      var newest, row := NewestAt(table[..|table| - 1], account, revision), table[|table| - 1];
      if row.account == account && row.revision <= revision && (newest.None? || newest.value.revision < row.revision)
      then Some(row)
      else newest
  }

  /** What stands for an account at a revision. */
  function StandingAt(table: seq<Row>, account: int, revision: nat): Option<int> {
    match NewestAt(table, account, revision)
    case None => None
    case Some(row) => row.effectiveOn
  }

  function Standing(table: seq<Row>, account: int): Option<int> {
    StandingAt(table, account, Head(table))
  }

  datatype Statement =
    | Retire(account: int, effectiveOn: int, today: int)
    | Withdraw(account: int)

  datatype Failure = Refused(refusal: Refusal) | RevisionTaken

  function Judged(table: seq<Row>, s: Statement): Result<(), Refusal> {
    match s
    case Retire(account, effectiveOn, today) => AcceptRetirement(Standing(table, account), effectiveOn, today)
    case Withdraw(account) => AcceptWithdrawal(Standing(table, account))
  }

  function RowOf(s: Statement, revision: nat): Row {
    match s
    case Retire(account, effectiveOn, _) => Row(revision, account, Some(effectiveOn))
    case Withdraw(account) => Row(revision, account, None)
  }

  predicate IsTaken(table: seq<Row>, revision: nat) {
    exists i | 0 <= i < |table| :: table[i].revision == revision
  }

  /** Judge a statement and, if it may stand, append it at the next revision. The
      table's primary key admits a revision once. */
  function Declare(table: seq<Row>, s: Statement): Result<seq<Row>, Failure> {
    match Judged(table, s)
    case Err(refusal) => Err(Refused(refusal))
    case Ok(_) =>
      var revision := Successor(Head(table));
      if IsTaken(table, revision) then Err(RevisionTaken) else Ok(table + [RowOf(s, revision)])
  }

  /** The table after a run of statements, accepted or not. */
  function After(statements: seq<Statement>): seq<Row> {
    if statements == [] then []
    else
      var table := After(statements[..|statements| - 1]);
      match Declare(table, statements[|statements| - 1])
      case Ok(longer) => longer
      case Err(_) => table
  }

  function Accepted(statements: seq<Statement>): nat {
    if statements == [] then 0
    else
      var init := statements[..|statements| - 1];
      Accepted(init) + if Declare(After(init), statements[|statements| - 1]).Ok? then 1 else 0
  }

  // ---- The revision is a coordinate ---------------------------------------------------

  /** Revisions count the rows, from one and without a gap. */
  ghost predicate Numbered(table: seq<Row>) {
    |table| <= U32_MAX && forall i | 0 <= i < |table| :: table[i].revision == i + 1
  }

  lemma {:induction false} HeadCounts(table: seq<Row>)
    requires Numbered(table)
    ensures Head(table) == |table|
  {
    if table != [] {
      assert forall i | 0 <= i < |table| - 1 :: table[..|table| - 1][i] == table[i];
      HeadCounts(table[..|table| - 1]);
    }
  }

  lemma {:induction false} DeclareNumbers(table: seq<Row>, s: Statement)
    requires Numbered(table)
    ensures Declare(table, s).Ok? ==>
              |table| < U32_MAX && Declare(table, s).value == table + [RowOf(s, |table| + 1)]
              && Numbered(Declare(table, s).value)
    ensures |table| < U32_MAX ==> (Declare(table, s).Ok? <==> Judged(table, s).Ok?)
  {
    HeadCounts(table);
    if |table| == U32_MAX {
      assert table[|table| - 1].revision == U32_MAX;
    }
  }

  /** In every run the revision is the number of statements accepted. At the end of
      the width no further statement is accepted, so no revision is used twice. */
  lemma {:induction false} RevisionCountsStatements(statements: seq<Statement>)
    ensures Numbered(After(statements))
    ensures Head(After(statements)) == |After(statements)| == Accepted(statements)
  {
    if statements != [] {
      var init := statements[..|statements| - 1];
      RevisionCountsStatements(init);
      DeclareNumbers(After(init), statements[|statements| - 1]);
    }
    HeadCounts(After(statements));
  }

  // ---- What a revision says ---------------------------------------------------------------

  lemma {:induction false} NewestIs(table: seq<Row>, account: int, revision: nat)
    requires Numbered(table)
    ensures NewestAt(table, account, revision).Some? ==>
              var row := NewestAt(table, account, revision).value;
              row.account == account && 1 <= row.revision <= revision && row.revision <= |table| && table[row.revision - 1] == row
  {
    if table != [] {
      assert forall i | 0 <= i < |table| - 1 :: table[..|table| - 1][i] == table[i];
      NewestIs(table[..|table| - 1], account, revision);
    }
  }

  /** The last row up to a revision is the whole of what that revision changed. */
  lemma {:induction false} NewestStep(table: seq<Row>, account: int, revision: nat)
    requires Numbered(table) && 0 < revision <= |table|
    ensures NewestAt(table, account, revision) ==
            if table[revision - 1].account == account then Some(table[revision - 1]) else NewestAt(table, account, revision - 1)
    decreases |table|
  {
    var init := table[..|table| - 1];
    assert forall i | 0 <= i < |init| :: init[i] == table[i];
    NewestIs(init, account, revision);
    if revision < |table| {
      NewestStep(init, account, revision);
    } else {
      UpToEnd(init, account, revision);
    }
  }

  /** Revisions past the end say what the last one says. */
  lemma {:induction false} UpToEnd(table: seq<Row>, account: int, revision: nat)
    requires Numbered(table) && revision > |table|
    ensures NewestAt(table, account, revision) == NewestAt(table, account, revision - 1)
  {
    if table != [] {
      assert forall i | 0 <= i < |table| - 1 :: table[..|table| - 1][i] == table[i];
      UpToEnd(table[..|table| - 1], account, revision);
    }
  }

  /** What an earlier revision said never changes. */
  lemma {:induction false} PastIsFixed(table: seq<Row>, more: seq<Row>, account: int, revision: nat)
    requires Numbered(table + more) && revision <= |table|
    ensures StandingAt(table + more, account, revision) == StandingAt(table, account, revision)
    decreases |more|
  {
    if more == [] {
      assert table + more == table;
    } else {
      var whole := table + more;
      assert whole[..|whole| - 1] == table + more[..|more| - 1];
      assert whole[|whole| - 1].revision == |whole|;
      assert forall i | 0 <= i < |whole| - 1 :: (table + more[..|more| - 1])[i] == whole[i];
      PastIsFixed(table, more[..|more| - 1], account, revision);
    }
  }

  lemma {:induction false} RunOnlyAdds(statements: seq<Statement>, later: seq<Statement>)
    ensures After(statements) <= After(statements + later)
    decreases |later|
  {
    if later == [] {
      assert statements + later == statements;
    } else {
      assert (statements + later)[..|statements + later| - 1] == statements + later[..|later| - 1];
      RunOnlyAdds(statements, later[..|later| - 1]);
      RevisionCountsStatements(statements + later[..|later| - 1]);
      DeclareNumbers(After(statements + later[..|later| - 1]), later[|later| - 1]);
    }
  }

  /** A report that named a revision reads the same state for ever, whatever is
      declared or withdrawn afterwards. */
  lemma {:induction false} PublishedStateIsFixed(statements: seq<Statement>, later: seq<Statement>, account: int, revision: nat)
    requires revision <= Head(After(statements))
    ensures StandingAt(After(statements + later), account, revision) == StandingAt(After(statements), account, revision)
  {
    RevisionCountsStatements(statements);
    RevisionCountsStatements(statements + later);
    RunOnlyAdds(statements, later);
    var table, whole := After(statements), After(statements + later);
    assert whole == table + whole[|table|..];
    PastIsFixed(table, whole[|table|..], account, revision);
  }

  // ---- Every revision changed something -----------------------------------------------------

  /** Each row was accepted over what stood before it. */
  ghost predicate Alternates(table: seq<Row>) {
    forall i | 0 <= i < |table| ::
      StandingAt(table, table[i].account, i).Some? <==> table[i].effectiveOn.None?
  }

  lemma {:induction false} AlternatesSnoc(table: seq<Row>, s: Statement)
    requires Numbered(table) && Alternates(table) && Declare(table, s).Ok?
    ensures Alternates(Declare(table, s).value)
  {
    DeclareNumbers(table, s);
    HeadCounts(table);
    var longer := Declare(table, s).value;
    var row := RowOf(s, |table| + 1);
    forall i | 0 <= i < |longer|
      ensures StandingAt(longer, longer[i].account, i).Some? <==> longer[i].effectiveOn.None?
    {
      PastIsFixed(table, [row], longer[i].account, i);
    }
  }

  lemma {:induction false} RunAlternates(statements: seq<Statement>)
    ensures Alternates(After(statements))
  {
    if statements != [] {
      var init := statements[..|statements| - 1];
      RunAlternates(init);
      RevisionCountsStatements(init);
      if Declare(After(init), statements[|statements| - 1]).Ok? {
        AlternatesSnoc(After(init), statements[|statements| - 1]);
      }
    }
  }

  /** Every revision changed something, and one thing: what stands for one account
      turned from a date to nothing or from nothing to a date, and no other account moved. */
  lemma {:induction false} EveryRevisionChangesOneAccount(statements: seq<Statement>, revision: nat, account: int)
    requires 0 < revision <= Head(After(statements))
    ensures Numbered(After(statements))
    ensures var table := After(statements);
      (StandingAt(table, account, revision) != StandingAt(table, account, revision - 1))
      <==> revision <= |table| && account == table[revision - 1].account
    ensures var table := After(statements);
      revision <= |table| && account == table[revision - 1].account ==>
        (StandingAt(table, account, revision).Some? <==> StandingAt(table, account, revision - 1).None?)
  {
    RevisionCountsStatements(statements);
    RunAlternates(statements);
    NewestStep(After(statements), account, revision);
    assert StandingAt(After(statements), After(statements)[revision - 1].account, revision - 1).Some?
      <==> After(statements)[revision - 1].effectiveOn.None?;
  }

  /** The statements about one account alternate: between two declarations that
      stand next to each other there is a withdrawal, and the other way round. */
  lemma {:induction false} AccountAlternates(statements: seq<Statement>, i: nat, j: nat)
    requires i < j < |After(statements)| && After(statements)[i].account == After(statements)[j].account
    requires forall k | i < k < j :: After(statements)[k].account != After(statements)[i].account
    ensures After(statements)[i].effectiveOn.Some? <==> After(statements)[j].effectiveOn.None?
  {
    var table := After(statements);
    RevisionCountsStatements(statements);
    RunAlternates(statements);
    NewestBetween(table, i, j);
    assert StandingAt(table, table[j].account, j).Some? <==> table[j].effectiveOn.None?;
  }

  lemma {:induction false} NewestBetween(table: seq<Row>, i: nat, j: nat)
    requires Numbered(table) && i < j <= |table|
    requires forall k | i < k < j :: table[k].account != table[i].account
    ensures NewestAt(table, table[i].account, j) == Some(table[i])
    decreases j
  {
    NewestStep(table, table[i].account, j);
    if j > i + 1 {
      NewestBetween(table, i, j - 1);
    }
  }

  /** An accepted statement moves its own account's standing and no other. */
  lemma {:induction false} DeclareMoves(table: seq<Row>, s: Statement, other: int)
    requires Numbered(table) && Declare(table, s).Ok?
    ensures var longer := Declare(table, s).value;
      && Numbered(longer) && |longer| == |table| + 1 && Head(longer) == |longer|
      && Standing(longer, other)
         == if other == s.account then RowOf(s, |longer|).effectiveOn else Standing(table, other)
  {
    DeclareNumbers(table, s);
    var row := RowOf(s, |table| + 1);
    HeadCounts(table);
    HeadCounts(table + [row]);
    NewestStep(table + [row], other, |table| + 1);
    PastIsFixed(table, [row], other, |table|);
  }

  /** A withdrawal right after a declaration restores what stood, at a later revision. */
  lemma {:induction false} WithdrawalRestores(statements: seq<Statement>, account: int, effectiveOn: int, today: int, other: int)
    requires Head(After(statements)) + 2 <= U32_MAX
    requires Declare(After(statements), Retire(account, effectiveOn, today)).Ok?
    ensures var once := Declare(After(statements), Retire(account, effectiveOn, today)).value;
      && Standing(once, account) == Some(effectiveOn)
      && Declare(once, Withdraw(account)).Ok?
      && Standing(Declare(once, Withdraw(account)).value, other) == Standing(After(statements), other)
      && Head(Declare(once, Withdraw(account)).value) == Head(After(statements)) + 2
  {
    var table := After(statements);
    RevisionCountsStatements(statements);
    HeadCounts(table);
    var retire, withdraw := Retire(account, effectiveOn, today), Withdraw(account);
    DeclareMoves(table, retire, account);
    DeclareMoves(table, retire, other);
    var once := Declare(table, retire).value;
    DeclareNumbers(once, withdraw);
    DeclareMoves(once, withdraw, other);
  }

  ghost predicate CeasedBy(table: seq<Row>, today: int) {
    forall i | 0 <= i < |table| && table[i].effectiveOn.Some? :: InForceOn(table[i].effectiveOn.value, today)
  }

  /** A declaration is accepted only of a day that has come. */
  lemma {:induction false} DeclareKeepsCeased(table: seq<Row>, s: Statement, today: int)
    requires CeasedBy(table, today) && Declare(table, s).Ok?
    requires s.Retire? ==> s.today <= today
    ensures CeasedBy(Declare(table, s).value, today)
  {
    var row := RowOf(s, Successor(Head(table)));
    assert row.effectiveOn.Some? ==> InForceOn(row.effectiveOn.value, today);
    forall i | 0 <= i < |table + [row]| && (table + [row])[i].effectiveOn.Some?
      ensures InForceOn((table + [row])[i].effectiveOn.value, today)
    {
      assert i < |table| ==> (table + [row])[i] == table[i];
    }
  }

  /** No run holds a prediction: what stands has ceased by the last day a statement
      was made on, that day included. */
  lemma {:induction false} WhatStandsHasCeased(statements: seq<Statement>, today: int)
    requires forall i | 0 <= i < |statements| && statements[i].Retire? :: statements[i].today <= today
    ensures CeasedBy(After(statements), today)
  {
    if statements != [] {
      var init, last := statements[..|statements| - 1], statements[|statements| - 1];
      assert forall i | 0 <= i < |init| :: init[i] == statements[i];
      WhatStandsHasCeased(init, today);
      if Declare(After(init), last).Ok? {
        DeclareKeepsCeased(After(init), last, today);
      }
    }
  }

  // ---- Which statements are accepted -----------------------------------------------------

  /** The last accepted statement about the account declares it retired as of a day. */
  ghost predicate IsRetired(table: seq<Row>, account: int, effectiveOn: int) {
    exists i | 0 <= i < |table| && table[i].account == account && table[i].effectiveOn == Some(effectiveOn) ::
      forall k | i < k < |table| :: table[k].account != account
  }

  ghost predicate IsUnheardOf(table: seq<Row>, account: int) {
    forall i | 0 <= i < |table| :: table[i].account != account
  }

  lemma {:induction false} LastRowStands(table: seq<Row>, account: int, i: nat, n: nat)
    requires Numbered(table) && i < n <= |table| && table[i].account == account
    requires forall k | i < k < n :: table[k].account != account
    ensures StandingAt(table, account, n) == table[i].effectiveOn
  {
    NewestBetween(table, i, n);
  }

  lemma {:induction false} NothingStands(table: seq<Row>, account: int, n: nat)
    requires Numbered(table) && n <= |table| && forall i | 0 <= i < n :: table[i].account != account
    ensures StandingAt(table, account, n).None?
  {
    NewestIs(table, account, n);
  }

  lemma {:induction false} LastRowOf(table: seq<Row>, account: int, n: nat) returns (i: nat)
    requires n <= |table| && exists k | 0 <= k < n :: table[k].account == account
    ensures i < n && table[i].account == account && forall k | i < k < n :: table[k].account != account
  {
    if table[n - 1].account == account {
      i := n - 1;
    } else {
      i := LastRowOf(table, account, n - 1);
    }
  }

  /** What stands is what the last statement about the account says. */
  lemma {:induction false} StandsIffRetired(table: seq<Row>, account: int, effectiveOn: int)
    requires Numbered(table)
    ensures Standing(table, account) == Some(effectiveOn) <==> IsRetired(table, account, effectiveOn)
  {
    HeadCounts(table);
    if IsUnheardOf(table, account) {
      NothingStands(table, account, |table|);
    } else {
      var i := LastRowOf(table, account, |table|);
      LastRowStands(table, account, i, |table|);
      assert table[i].effectiveOn == Some(effectiveOn) ==> IsRetired(table, account, effectiveOn);
    }
  }

  /** After any statements, a declaration is accepted exactly when the account is not
      retired and the day named has come, while revisions last; a retired account is
      named first among the reasons to refuse. */
  lemma {:induction false} RetirementIsAcceptedIff(statements: seq<Statement>, account: int, effectiveOn: int, today: int)
    ensures var table := After(statements);
      var r := Declare(table, Retire(account, effectiveOn, today));
      && (r.Ok? <==> (forall day :: !IsRetired(table, account, day)) && effectiveOn <= today && |table| < 0xFFFF_FFFF)
      && (forall day | IsRetired(table, account, day) :: r == Err(Refused(AlreadyRetired(day))))
      && ((forall day :: !IsRetired(table, account, day)) && effectiveOn > today ==>
            r == Err(Refused(NotYetCeased(effectiveOn, today))))
      && (r.Ok? ==> r.value == table + [Row(|table| + 1, account, Some(effectiveOn))])
  {
    var table := After(statements);
    RevisionCountsStatements(statements);
    DeclareNumbers(table, Retire(account, effectiveOn, today));
    forall day
      ensures Standing(table, account) == Some(day) <==> IsRetired(table, account, day)
    {
      StandsIffRetired(table, account, day);
    }
    if Standing(table, account).Some? {
      assert IsRetired(table, account, Standing(table, account).value);
    }
  }

  /** A withdrawal is accepted exactly when the account is retired, while revisions last. */
  lemma {:induction false} WithdrawalIsAcceptedIff(statements: seq<Statement>, account: int)
    ensures var table := After(statements);
      var r := Declare(table, Withdraw(account));
      && (r.Ok? <==> (exists day :: IsRetired(table, account, day)) && |table| < 0xFFFF_FFFF)
      && ((forall day :: !IsRetired(table, account, day)) ==> r == Err(Refused(NotRetired)))
      && (r.Ok? ==> r.value == table + [Row(|table| + 1, account, None)])
  {
    var table := After(statements);
    RevisionCountsStatements(statements);
    DeclareNumbers(table, Withdraw(account));
    forall day
      ensures Standing(table, account) == Some(day) <==> IsRetired(table, account, day)
    {
      StandsIffRetired(table, account, day);
    }
    if Standing(table, account).Some? {
      assert IsRetired(table, account, Standing(table, account).value);
    }
  }
}
