/** What a run conserves: every row is accounted for, and every account moves by
    exactly what its own rows say. */
module ImportConservation {
  import opened StableSorting
  import opened Sums
  import opened ExportRows
  import opened TransferPairing
  import opened PairingLaws
  import opened ImportBuild
  import opened ImportRun

  // ---- Rows ------------------------------------------------------------------

  ghost predicate CountersMatchLists(book: Book) {
    book.droppedSecondLeg == |book.droppedLegs| && book.unmatchedLegs == |book.unmatched|
  }

  function Accounted(book: Book): nat {
    |book.items| + book.droppedSecondLeg + book.skippedOutsideContour + book.unmatchedLegs
  }

  lemma {:induction false} PairsAccount(rows: seq<Row>, s: Settings, ordinals: map<nat, nat>, pairs: seq<(nat, nat)>)
    requires InFile(rows, Pairing(pairs, []))
    ensures Accounted(BookPairs(rows, s, ordinals, pairs)) == 2 * |pairs|
    ensures CountersMatchLists(BookPairs(rows, s, ordinals, pairs))
  {
    if pairs != [] {
      PairsAccount(rows, s, ordinals, pairs[..|pairs| - 1]);
    }
  }

  lemma {:induction false} SinglesAccount(rows: seq<Row>, s: Settings, ordinals: map<nat, nat>, book: Book, singles: seq<nat>)
    requires InFile(rows, Pairing([], singles)) && CountersMatchLists(book)
    ensures Accounted(BookSingles(rows, s, ordinals, book, singles)) == Accounted(book) + |singles|
    ensures CountersMatchLists(BookSingles(rows, s, ordinals, book, singles))
  {
    if singles != [] {
      SinglesAccount(rows, s, ordinals, book, singles[..|singles| - 1]);
    }
  }

  /** `unaccounted` is precisely the number of internal legs of zero amount. */
  lemma {:induction false} UnaccountedAreTheZeroLegs(rows: seq<Row>, s: Settings, tolerance: int)
    ensures var summary := SummaryOf(RunBook(rows, s, tolerance));
            && Unaccounted(rows, summary) == |ZeroLegs(rows)|
            && summary.droppedSecondLeg == |summary.droppedLegs|
            && summary.unmatchedLegs == |summary.unmatched|
  {
    PairingIsProper(rows, tolerance);
    var p := PairingOf(rows, tolerance);
    var ordinals := OrdinalsOf(rows, s, p);
    PairsAccount(rows, s, ordinals, p.pairs);
    SinglesAccount(rows, s, ordinals, BookPairs(rows, s, ordinals, p.pairs), p.singles);
    PairingPartitionsTheFile(rows, tolerance);
    assert |multiset(Everyone(rows, p))| == |multiset(Positions(|rows|))| == |rows|;
  }

  // ---- Money -----------------------------------------------------------------

  /** What an operation does to an account: a transfer debits its sender and
      credits its receiver. */
  function Effect(operation: Operation, account: string): int {
    (if operation.account != account then 0
     else if operation.flow.Withdrawal? || operation.flow.Transfer? then -operation.amount
     else operation.amount)
    + (if operation.flow.Transfer? && operation.flow.to == account then operation.amount else 0)
  }

  function EffectOn(account: string): Operation -> int {
    (operation: Operation) => Effect(operation, account)
  }

  /** A row's amount, if the row is the account's. */
  function OwnAmount(rows: seq<Row>, s: Settings, account: string): nat -> int {
    (i: nat) => if i < |rows| && IdOf(s, rows[i]) == account then rows[i].amount else 0
  }

  /** What a row declared to face the account adds there: the opposite of what it
      does to the account it is printed on. */
  function FacingAmount(rows: seq<Row>, s: Settings, account: string): nat -> int {
    (i: nat) => if i < |rows| && IsSubmittedSingle(s, rows[i]) && DeclaredOther(s, rows[i]) == account
         then -rows[i].amount else 0
  }

  /** An unmatched leg's amount, if the leg is the account's. */
  function LegAmount(s: Settings, account: string): UnmatchedLeg -> int {
    (leg: UnmatchedLeg) => if Lookup(s.accounts, leg.account) == account then leg.amount else 0
  }

  lemma {:induction false} ItemsSnoc(items: seq<Keyed<Operation>>, x: Keyed<Operation>)
    ensures Items(items + [x]) == Items(items) + [x.item]
  {
    assert (items + [x])[..|items|] == items;
  }

  lemma {:induction false} OperationMoves(row: Row, statement: string, other: string, key: string, account: string)
    requires account != ""
    ensures Effect(OperationOf(row, statement, key), account) == if statement == account then row.amount else 0
    ensures Effect(TransferToOwnAccount(row, statement, other, key), account)
         == (if statement == account then row.amount else 0) - (if other == account then row.amount else 0)
  {
  }

  lemma {:induction false} OneMoreItem(s: Settings, book: Book, x: Keyed<Operation>, account: string)
    ensures SumOf(Items(book.items + [x]), EffectOn(account)) == SumOf(Items(book.items), EffectOn(account)) + Effect(x.item, account)
  {
    ItemsSnoc(book.items, x);
    SumSnoc(Items(book.items), x.item, EffectOn(account));
  }

  lemma {:induction false} TransferMoves(row: Row, sender: string, receiver: string, key: string, account: string)
    requires row.amount < 0
    ensures Effect(Recorded(row, sender, Transfer(receiver), key), account)
         == (if sender == account then row.amount else 0) - (if receiver == account then row.amount else 0)
  {
  }

  /** The operation of a pair moves the account by the pair's own two rows, whatever its key. */
  lemma {:induction false} PairOperationMoves(rows: seq<Row>, s: Settings, pair: (nat, nat), tolerance: int, account: string, key: string)
    requires IsTransfer(rows, pair, tolerance) && account != ""
    ensures var (out, inn) := pair;
            var outId, inId := IdOf(s, rows[out]), IdOf(s, rows[inn]);
            var moved := OwnAmount(rows, s, account)(out) + OwnAmount(rows, s, account)(inn);
            && (outId != "" && inId != "" ==> Effect(Recorded(rows[out], outId, Transfer(inId), key), account) == moved)
            && (outId != "" && inId == "" ==> Effect(OperationOf(rows[out], outId, key), account) == moved)
            && (outId == "" && inId != "" ==> Effect(OperationOf(rows[inn], inId, key), account) == moved)
            && (outId == "" && inId == "" ==> moved == 0)
  {
    var (out, inn) := pair;
    var outId, inId := IdOf(s, rows[out]), IdOf(s, rows[inn]);
    TransferMoves(rows[out], outId, inId, key, account);
    OperationMoves(rows[out], outId, "", key, account);
    OperationMoves(rows[inn], inId, "", key, account);
  }

  lemma {:induction false} PairMoves(rows: seq<Row>, s: Settings, ordinals: map<nat, nat>, book: Book, pair: (nat, nat), tolerance: int, account: string)
    requires IsTransfer(rows, pair, tolerance) && account != ""
    ensures SumOf(Items(BookPair(rows, s, ordinals, book, pair).items), EffectOn(account))
         == SumOf(Items(book.items), EffectOn(account))
            + OwnAmount(rows, s, account)(pair.0) + OwnAmount(rows, s, account)(pair.1)
  {
    var after := BookPair(rows, s, ordinals, book, pair);
    var survivor := Survivor(rows, s, pair);
    if survivor.Some? {
      var key := KeyFor(rows, s, ordinals, survivor.value);
      PairOperationMoves(rows, s, pair, tolerance, account, key);
      var x := after.items[|after.items| - 1];
      assert after.items == book.items + [x];
      OneMoreItem(s, book, x, account);
    } else {
      PairOperationMoves(rows, s, pair, tolerance, account, "");
    }
  }

  lemma {:induction false} PairsMove(rows: seq<Row>, s: Settings, ordinals: map<nat, nat>, pairs: seq<(nat, nat)>, tolerance: int, account: string)
    requires InFile(rows, Pairing(pairs, [])) && account != ""
    requires forall k | 0 <= k < |pairs| :: IsTransfer(rows, pairs[k], tolerance)
    ensures SumOf(Items(BookPairs(rows, s, ordinals, pairs).items), EffectOn(account))
         == SumOf(Firsts(pairs), OwnAmount(rows, s, account)) + SumOf(Seconds(pairs), OwnAmount(rows, s, account))
  {
    if pairs != [] {
      var init, last := pairs[..|pairs| - 1], pairs[|pairs| - 1];
      PairsMove(rows, s, ordinals, init, tolerance, account);
      PairMoves(rows, s, ordinals, BookPairs(rows, s, ordinals, init), last, tolerance, account);
      SumSnoc(Firsts(init), last.0, OwnAmount(rows, s, account));
      SumSnoc(Seconds(init), last.1, OwnAmount(rows, s, account));
    }
  }

  /** What the operations and the unmatched legs of a book come to, together. */
  function BookMoves(s: Settings, book: Book, account: string): int {
    SumOf(Items(book.items), EffectOn(account)) + SumOf(book.unmatched, LegAmount(s, account))
  }

  lemma {:induction false} SingleMoves(rows: seq<Row>, s: Settings, ordinals: map<nat, nat>, book: Book, i: nat, account: string)
    requires i < |rows| && account != ""
    ensures BookMoves(s, BookSingle(rows, s, ordinals, book, i), account)
         == BookMoves(s, book, account) + OwnAmount(rows, s, account)(i) + FacingAmount(rows, s, account)(i)
  {
    var statement, other, key := IdOf(s, rows[i]), DeclaredOther(s, rows[i]), KeyFor(rows, s, ordinals, i);
    if statement != "" {
      if IsInternalTransfer(rows[i]) {
        SumSnoc(book.unmatched, Unmatched(rows, i, key), LegAmount(s, account));
      } else {
        OperationMoves(rows[i], statement, other, key, account);
        if other != "" {
          OneMoreItem(s, book, Keyed(Single(i), TransferToOwnAccount(rows[i], statement, other, key)), account);
        } else {
          OneMoreItem(s, book, Keyed(Single(i), OperationOf(rows[i], statement, key)), account);
        }
      }
    }
  }

  lemma {:induction false} SinglesMove(rows: seq<Row>, s: Settings, ordinals: map<nat, nat>, book: Book, singles: seq<nat>, account: string)
    requires InFile(rows, Pairing([], singles)) && account != ""
    ensures BookMoves(s, BookSingles(rows, s, ordinals, book, singles), account)
         == BookMoves(s, book, account) + SumOf(singles, OwnAmount(rows, s, account))
            + SumOf(singles, FacingAmount(rows, s, account))
  {
    if singles != [] {
      var init, last := singles[..|singles| - 1], singles[|singles| - 1];
      SinglesMove(rows, s, ordinals, book, init, account);
      SingleMoves(rows, s, ordinals, BookSingles(rows, s, ordinals, book, init), last, account);
    }
  }

  lemma {:induction false} PairsReportNothing(rows: seq<Row>, s: Settings, ordinals: map<nat, nat>, pairs: seq<(nat, nat)>)
    requires InFile(rows, Pairing(pairs, []))
    ensures BookPairs(rows, s, ordinals, pairs).unmatched == []
  {
    if pairs != [] {
      PairsReportNothing(rows, s, ordinals, pairs[..|pairs| - 1]);
    }
  }

  lemma {:induction false} ZeroTerms(ps: seq<nat>, f: nat -> int)
    requires forall k | 0 <= k < |ps| :: f(ps[k]) == 0
    ensures SumOf(ps, f) == 0
  {
    if ps != [] {
      ZeroTerms(ps[..|ps| - 1], f);
    }
  }

  /** A sum over the whole file, taken list by list. */
  lemma {:induction false} FileSum(rows: seq<Row>, tolerance: int, f: nat -> int)
    ensures var p := PairingOf(rows, tolerance);
            SumOf(Positions(|rows|), f)
            == SumOf(Firsts(p.pairs), f) + SumOf(Seconds(p.pairs), f) + SumOf(p.singles, f) + SumOf(ZeroLegs(rows), f)
  {
    var p := PairingOf(rows, tolerance);
    PairingPartitionsTheFile(rows, tolerance);
    SumIsOrderFree(Positions(|rows|), Everyone(rows, p), f);
    SumConcat(Firsts(p.pairs) + Seconds(p.pairs) + p.singles, ZeroLegs(rows), f);
    SumConcat(Firsts(p.pairs) + Seconds(p.pairs), p.singles, f);
    SumConcat(Firsts(p.pairs), Seconds(p.pairs), f);
  }

  /** A leg of an internal transfer faces no other account. */
  lemma {:induction false} LegsFaceNothing(rows: seq<Row>, s: Settings, ps: seq<nat>, account: string)
    requires forall k | 0 <= k < |ps| :: ps[k] < |rows| && IsInternalTransfer(rows[ps[k]])
    ensures SumOf(ps, FacingAmount(rows, s, account)) == 0
  {
    ZeroTerms(ps, FacingAmount(rows, s, account));
  }

  lemma {:induction false} PairedLegsAreInternal(rows: seq<Row>, pairs: seq<(nat, nat)>, tolerance: int)
    requires forall pair | pair in pairs :: IsTransfer(rows, pair, tolerance)
    ensures forall k | 0 <= k < |pairs| :: Firsts(pairs)[k] < |rows| && IsInternalTransfer(rows[Firsts(pairs)[k]])
    ensures forall k | 0 <= k < |pairs| :: Seconds(pairs)[k] < |rows| && IsInternalTransfer(rows[Seconds(pairs)[k]])
  {
    forall k | 0 <= k < |pairs|
      ensures Firsts(pairs)[k] < |rows| && IsInternalTransfer(rows[Firsts(pairs)[k]])
      ensures Seconds(pairs)[k] < |rows| && IsInternalTransfer(rows[Seconds(pairs)[k]])
    {
      assert IsTransfer(rows, pairs[k], tolerance);
    }
  }

  lemma {:induction false} PairsFaceNothing(rows: seq<Row>, s: Settings, pairs: seq<(nat, nat)>, tolerance: int, account: string)
    requires forall pair | pair in pairs :: IsTransfer(rows, pair, tolerance)
    ensures SumOf(Firsts(pairs), FacingAmount(rows, s, account)) == 0
    ensures SumOf(Seconds(pairs), FacingAmount(rows, s, account)) == 0
  {
    PairedLegsAreInternal(rows, pairs, tolerance);
    LegsFaceNothing(rows, s, Firsts(pairs), account);
    LegsFaceNothing(rows, s, Seconds(pairs), account);
  }

  lemma {:induction false} ZeroLegsMoveNothing(rows: seq<Row>, s: Settings, account: string)
    ensures SumOf(ZeroLegs(rows), FacingAmount(rows, s, account)) == 0
    ensures SumOf(ZeroLegs(rows), OwnAmount(rows, s, account)) == 0
  {
    LegsFaceNothing(rows, s, ZeroLegs(rows), account);
    ZeroTerms(ZeroLegs(rows), OwnAmount(rows, s, account));
  }

  /** The counterparty declarations reach ordinary singles only. */
  lemma {:induction false} FacingSum(rows: seq<Row>, s: Settings, tolerance: int, account: string)
    ensures SumOf(Positions(|rows|), FacingAmount(rows, s, account))
         == SumOf(PairingOf(rows, tolerance).singles, FacingAmount(rows, s, account))
  {
    PairingIsSound(rows, tolerance);
    PairsFaceNothing(rows, s, PairingOf(rows, tolerance).pairs, tolerance, account);
    ZeroLegsMoveNothing(rows, s, account);
    FileSum(rows, tolerance, FacingAmount(rows, s, account));
  }

  lemma {:induction false} BookConserves(rows: seq<Row>, s: Settings, tolerance: int, account: string)
    requires account != ""
    ensures BookMoves(s, RunBook(rows, s, tolerance), account)
         == SumOf(Positions(|rows|), OwnAmount(rows, s, account)) + SumOf(Positions(|rows|), FacingAmount(rows, s, account))
  {
    PairingIsProper(rows, tolerance);
    PairingIsSound(rows, tolerance);
    var p, own := PairingOf(rows, tolerance), OwnAmount(rows, s, account);
    var ordinals := OrdinalsOf(rows, s, p);
    var book := BookPairs(rows, s, ordinals, p.pairs);
    PairsMove(rows, s, ordinals, p.pairs, tolerance, account);
    PairsReportNothing(rows, s, ordinals, p.pairs);
    SinglesMove(rows, s, ordinals, book, p.singles, account);
    FileSum(rows, tolerance, own);
    ZeroLegsMoveNothing(rows, s, account);
    FacingSum(rows, s, tolerance, account);
  }

  /** Conservation, account by account. What the submitted operations do to an
      account is what its rows in the file come to, less the unmatched legs the
      summary reports, plus the opposite of every row declared to face it. */
  lemma {:induction false} RunConserves(rows: seq<Row>, s: Settings, tolerance: int, account: string)
    requires account != ""
    ensures SumOf(RunOperations(rows, s, tolerance), EffectOn(account))
         == SumOf(Positions(|rows|), OwnAmount(rows, s, account))
            - SumOf(SummaryOf(RunBook(rows, s, tolerance)).unmatched, LegAmount(s, account))
            + SumOf(Positions(|rows|), FacingAmount(rows, s, account))
  {
    var items := RunBook(rows, s, tolerance).items;
    BookConserves(rows, s, tolerance, account);
    SortItems(items);
    SumIsOrderFree(Items(Sort(items)), Items(items), EffectOn(account));
  }

  /** With no declared counterparties the last term is nothing. */
  lemma {:induction false} RunConservesPlainly(rows: seq<Row>, s: Settings, tolerance: int, account: string)
    requires account != "" && s.counterparties == map[]
    ensures SumOf(RunOperations(rows, s, tolerance), EffectOn(account))
         == SumOf(Positions(|rows|), OwnAmount(rows, s, account))
            - SumOf(SummaryOf(RunBook(rows, s, tolerance)).unmatched, LegAmount(s, account))
  {
    RunConserves(rows, s, tolerance, account);
    ZeroTerms(Positions(|rows|), FacingAmount(rows, s, account));
  }
}
