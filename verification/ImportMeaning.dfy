/** What each operation of a run says of its row, in the columns of the export and the
    operator's own tables: its kind, its accounts, its day and its categories. */
module ImportMeaning {
  import opened Outcomes
  import opened StableSorting
  import opened Sums
  import opened Texts
  import opened ExportRows
  import opened TransferPairing
  import opened PairingLaws
  import opened PairingQuality
  import opened PairingMoments
  import opened ImportBuild
  import opened ImportRun
  import opened ImportConservation
  import opened ImportOutput
  import opened ImportLimits

  /** The row's account is in the contour: the operator's table gives it an identifier. */
  predicate IsHeld(s: Settings, row: Row) {
    row.account in s.accounts && s.accounts[row.account] != ""
  }

  function HolderOf(s: Settings, row: Row): string
    requires IsHeld(s, row)
  {
    s.accounts[row.account]
  }

  /** The row is no leg of an internal transfer, and the operator declared its
      counterparty to be an account of their own. */
  predicate IsDeclared(s: Settings, row: Row) {
    !IsLeg(row) && row.legend in s.counterparties && s.counterparties[row.legend] != ""
  }

  /** Rows `i` and `j` are a pair, and both are in the contour. */
  ghost predicate IsFolded(rows: seq<Row>, s: Settings, p: Pairing, i: nat, j: nat) {
    && (exists k | 0 <= k < |p.pairs| :: p.pairs[k] == (i, j))
    && i < |rows| && j < |rows| && IsHeld(s, rows[i]) && IsHeld(s, rows[j])
  }

  /** The kind of a row that is no transfer, by its sign and the bank's category. */
  predicate IsPlainKind(row: Row, flow: Flow) {
    && !flow.Transfer?
    && (flow.Withdrawal? <==> row.amount <= 0)
    && (flow == Income(Some("deposit_interest")) <==> row.amount > 0 && row.category == "Проценты")
    && (flow == Income(None) <==> row.amount > 0 && row.category == "Бонусы")
    && (flow.Deposit? <==> row.amount > 0 && (row.category == "Переводы" || row.category == "Пополнения"))
    && (flow.Refund? <==> row.amount > 0 && row.category !in {"Проценты", "Бонусы", "Переводы", "Пополнения"})
  }

  lemma {:induction false} FlowIsPlain(row: Row)
    ensures IsPlainKind(row, FlowOf(row))
  {
    assert "Проценты"[0] == 'П' && "Бонусы"[0] == 'Б' && |"Переводы"| == 8 && |"Пополнения"| == 10 && |"Проценты"| == 8;
    assert "Переводы"[1] == 'е' && "Проценты"[1] == 'р';
  }

  /** What does not depend on the kind: magnitude, calendar day, categories, description,
      and a key printed from the row's own account, line and ordinal. */
  ghost predicate Repeats(s: Settings, row: Row, operation: Operation)
    requires IsHeld(s, row)
  {
    && operation.amount >= 0 && (operation.amount == row.amount || operation.amount == -row.amount)
    && operation.posted * 86400 <= row.moment < (operation.posted + 1) * 86400
    && operation.sourceCategory == row.category && operation.description == row.description
    && operation.ownerCategory == (if row.ownerCategory == "" then None else Some(row.ownerCategory))
    && exists n: nat :: operation.key == HolderOf(s, row) + "/" + s.channel + "/" + s.digest(row.raw) + "/" + Decimal(n)
  }

  /** A transfer to the account it was paired with; between the row's account and the
      declared one, in the direction of the sign; or the plain kind, on the row's account. */
  ghost predicate MovesAsTold(rows: seq<Row>, s: Settings, p: Pairing, i: nat, account: string, flow: Flow)
    requires i < |rows| && IsHeld(s, rows[i])
  {
    var row, holder := rows[i], HolderOf(s, rows[i]);
    if exists j: nat :: IsFolded(rows, s, p, i, j) then
      account == holder && exists j: nat :: IsFolded(rows, s, p, i, j) && flow == Transfer(HolderOf(s, rows[j]))
    else if IsDeclared(s, row) then
      if row.amount < 0 then account == holder && flow == Transfer(s.counterparties[row.legend])
      else account == s.counterparties[row.legend] && flow == Transfer(holder)
    else account == holder && IsPlainKind(row, flow)
  }

  ghost predicate Becomes(rows: seq<Row>, s: Settings, p: Pairing, i: int, operation: Operation) {
    && 0 <= i < |rows| && IsHeld(s, rows[i])
    && Repeats(s, rows[i], operation)
    && MovesAsTold(rows, s, p, i, operation.account, operation.flow)
  }

  // ---- One row ------------------------------------------------------------------------

  lemma {:induction false} HeldIsInside(s: Settings, row: Row)
    ensures IsHeld(s, row) <==> Inside(s, row)
    ensures IsHeld(s, row) ==> HolderOf(s, row) == IdOf(s, row)
    ensures IsDeclared(s, row) <==> !IsInternalTransfer(row) && DeclaredOther(s, row) != ""
    ensures IsDeclared(s, row) ==> s.counterparties[row.legend] == DeclaredOther(s, row)
  {
  }

  lemma {:induction false} RecordedRepeats(rows: seq<Row>, s: Settings, ordinals: map<nat, nat>, i: nat, account: string, flow: Flow)
    requires i < |rows| && IsHeld(s, rows[i])
    ensures Repeats(s, rows[i], Recorded(rows[i], account, flow, KeyFor(rows, s, ordinals, i)))
  {
    var row, n: nat := rows[i], if i in ordinals then ordinals[i] else 0;
    assert KeyFor(rows, s, ordinals, i) == HolderOf(s, row) + "/" + s.channel + "/" + s.digest(row.raw) + "/" + Decimal(n);
  }

  lemma {:induction false} FirstsDiffer(rows: seq<Row>, tolerance: int, m: seq<(nat, nat)>, k: nat, l: nat)
    requires IsMatching(rows, tolerance, m) && k < |m| && l < |m| && m[k].0 == m[l].0
    ensures k == l
  {
  }

  /** A row of a pair with a far side outside the contour is folded with nothing. */
  lemma {:induction false} FoldedOnce(rows: seq<Row>, s: Settings, tolerance: int, k: nat, i: nat, j: nat)
    requires k < |PairingOf(rows, tolerance).pairs| && IsFolded(rows, s, PairingOf(rows, tolerance), i, j)
    requires i == PairingOf(rows, tolerance).pairs[k].0 || i == PairingOf(rows, tolerance).pairs[k].1
    ensures PairingOf(rows, tolerance).pairs[k] == (i, j)
  {
    var pairs := PairingOf(rows, tolerance).pairs;
    var l :| 0 <= l < |pairs| && pairs[l] == (i, j);
    PairsFormMatching(rows, tolerance);
    PairsMeet(rows, tolerance, k);
    PairsMeet(rows, tolerance, l);
    FirstsDiffer(rows, tolerance, pairs, k, l);
  }

  lemma {:induction false} FoldedIsLeg(rows: seq<Row>, s: Settings, tolerance: int, i: nat, j: nat)
    requires IsFolded(rows, s, PairingOf(rows, tolerance), i, j)
    ensures IsLeg(rows[i])
  {
    var pairs := PairingOf(rows, tolerance).pairs;
    var l :| 0 <= l < |pairs| && pairs[l] == (i, j);
    PairsMeet(rows, tolerance, l);
  }

  lemma {:induction false} PairMovesAsTold(rows: seq<Row>, s: Settings, tolerance: int, k: nat)
    requires k < |PairingOf(rows, tolerance).pairs|
    ensures var p := PairingOf(rows, tolerance);
      var (out, inn) := p.pairs[k];
      && out < |rows| && inn < |rows|
      && (IsHeld(s, rows[out]) && IsHeld(s, rows[inn]) ==>
            MovesAsTold(rows, s, p, out, HolderOf(s, rows[out]), Transfer(HolderOf(s, rows[inn]))))
      && (IsHeld(s, rows[out]) && !IsHeld(s, rows[inn]) ==>
            MovesAsTold(rows, s, p, out, HolderOf(s, rows[out]), FlowOf(rows[out])))
      && (!IsHeld(s, rows[out]) && IsHeld(s, rows[inn]) ==>
            MovesAsTold(rows, s, p, inn, HolderOf(s, rows[inn]), FlowOf(rows[inn])))
  {
    var p := PairingOf(rows, tolerance);
    var (out, inn) := p.pairs[k];
    PairsMeet(rows, tolerance, k);
    if IsHeld(s, rows[out]) && IsHeld(s, rows[inn]) {
      assert IsFolded(rows, s, p, out, inn);
    } else {
      forall i, j | (i == out || i == inn) && IsFolded(rows, s, p, i, j)
        ensures false
      {
        FoldedOnce(rows, s, tolerance, k, i, j);
      }
      FlowIsPlain(rows[out]);
      FlowIsPlain(rows[inn]);
    }
  }

  lemma {:induction false} SingleMovesAsTold(rows: seq<Row>, s: Settings, tolerance: int, i: nat)
    requires i < |rows| && IsHeld(s, rows[i]) && !IsLeg(rows[i])
    ensures var p, row, holder := PairingOf(rows, tolerance), rows[i], HolderOf(s, rows[i]);
      if !IsDeclared(s, row) then MovesAsTold(rows, s, p, i, holder, FlowOf(row))
      else if row.amount < 0 then MovesAsTold(rows, s, p, i, holder, Transfer(s.counterparties[row.legend]))
      else MovesAsTold(rows, s, p, i, s.counterparties[row.legend], Transfer(holder))
  {
    forall j | IsFolded(rows, s, PairingOf(rows, tolerance), i, j)
      ensures false
    {
      FoldedIsLeg(rows, s, tolerance, i, j);
    }
    FlowIsPlain(rows[i]);
  }

  // ---- The whole run --------------------------------------------------------------------

  ghost predicate AllBecome(rows: seq<Row>, s: Settings, p: Pairing, items: seq<Keyed<Operation>>) {
    forall k | 0 <= k < |items| :: Becomes(rows, s, p, items[k].rank.first, items[k].item)
  }

  lemma {:induction false} AllBecomeSnoc(rows: seq<Row>, s: Settings, p: Pairing, items: seq<Keyed<Operation>>, x: Keyed<Operation>)
    requires AllBecome(rows, s, p, items) && Becomes(rows, s, p, x.rank.first, x.item)
    ensures AllBecome(rows, s, p, items + [x])
  {
  }

  lemma {:induction false} PairBecomes(rows: seq<Row>, s: Settings, ordinals: map<nat, nat>, tolerance: int, book: Book, k: nat)
    requires k < |PairingOf(rows, tolerance).pairs| && InFile(rows, PairingOf(rows, tolerance))
    requires AllBecome(rows, s, PairingOf(rows, tolerance), book.items)
    ensures AllBecome(rows, s, PairingOf(rows, tolerance),
                      BookPair(rows, s, ordinals, book, PairingOf(rows, tolerance).pairs[k]).items)
  {
    var p := PairingOf(rows, tolerance);
    var (out, inn) := p.pairs[k];
    HeldIsInside(s, rows[out]);
    HeldIsInside(s, rows[inn]);
    PairMovesAsTold(rows, s, tolerance, k);
    if Inside(s, rows[out]) && Inside(s, rows[inn]) {
      var flow := Transfer(IdOf(s, rows[inn]));
      RecordedRepeats(rows, s, ordinals, out, IdOf(s, rows[out]), flow);
      AllBecomeSnoc(rows, s, p, book.items, Keyed(Single(out), Recorded(rows[out], IdOf(s, rows[out]), flow, KeyFor(rows, s, ordinals, out))));
    } else if Inside(s, rows[out]) || Inside(s, rows[inn]) {
      var i := if Inside(s, rows[out]) then out else inn;
      RecordedRepeats(rows, s, ordinals, i, IdOf(s, rows[i]), FlowOf(rows[i]));
      AllBecomeSnoc(rows, s, p, book.items, Keyed(Single(i), OperationOf(rows[i], IdOf(s, rows[i]), KeyFor(rows, s, ordinals, i))));
    }
  }

  lemma {:induction false} PairsBecome(rows: seq<Row>, s: Settings, ordinals: map<nat, nat>, tolerance: int, n: nat)
    requires n <= |PairingOf(rows, tolerance).pairs| && InFile(rows, PairingOf(rows, tolerance))
    ensures InFile(rows, Pairing(PairingOf(rows, tolerance).pairs[..n], []))
    ensures AllBecome(rows, s, PairingOf(rows, tolerance), BookPairs(rows, s, ordinals, PairingOf(rows, tolerance).pairs[..n]).items)
  {
    if n > 0 {
      var pairs := PairingOf(rows, tolerance).pairs;
      PairsBecome(rows, s, ordinals, tolerance, n - 1);
      assert pairs[..n][..n - 1] == pairs[..n - 1];
      PairBecomes(rows, s, ordinals, tolerance, BookPairs(rows, s, ordinals, pairs[..n - 1]), n - 1);
    }
  }

  lemma {:induction false} SingleBecomes(rows: seq<Row>, s: Settings, ordinals: map<nat, nat>, tolerance: int, book: Book, i: nat)
    requires i < |rows| && AllBecome(rows, s, PairingOf(rows, tolerance), book.items)
    ensures AllBecome(rows, s, PairingOf(rows, tolerance), BookSingle(rows, s, ordinals, book, i).items)
  {
    var p, account, key := PairingOf(rows, tolerance), IdOf(s, rows[i]), KeyFor(rows, s, ordinals, i);
    HeldIsInside(s, rows[i]);
    if IsSubmittedSingle(s, rows[i]) {
      SingleMovesAsTold(rows, s, tolerance, i);
      var other := DeclaredOther(s, rows[i]);
      var operation := if other != "" then TransferToOwnAccount(rows[i], account, other, key) else OperationOf(rows[i], account, key);
      RecordedRepeats(rows, s, ordinals, i, operation.account, operation.flow);
      AllBecomeSnoc(rows, s, p, book.items, Keyed(Single(i), operation));
    }
  }

  lemma {:induction false} SinglesBecome(rows: seq<Row>, s: Settings, ordinals: map<nat, nat>, tolerance: int, book: Book, singles: seq<nat>)
    requires InFile(rows, Pairing([], singles)) && AllBecome(rows, s, PairingOf(rows, tolerance), book.items)
    ensures AllBecome(rows, s, PairingOf(rows, tolerance), BookSingles(rows, s, ordinals, book, singles).items)
  {
    if singles != [] {
      var init := singles[..|singles| - 1];
      SinglesBecome(rows, s, ordinals, tolerance, book, init);
      SingleBecomes(rows, s, ordinals, tolerance, BookSingles(rows, s, ordinals, book, init), singles[|singles| - 1]);
    }
  }

  lemma {:induction false} SortedBecome(rows: seq<Row>, s: Settings, p: Pairing, items: seq<Keyed<Operation>>)
    requires AllBecome(rows, s, p, items)
    ensures AllBecome(rows, s, p, Sort(items))
  {
    SortIsPermutation(items);
    forall k | 0 <= k < |Sort(items)|
      ensures Becomes(rows, s, p, Sort(items)[k].rank.first, Sort(items)[k].item)
    {
      assert Sort(items)[k] in multiset(items);
      var i :| 0 <= i < |items| && items[i] == Sort(items)[k];
    }
  }

  lemma {:induction false} RunBecomes(rows: seq<Row>, s: Settings, tolerance: int)
    ensures AllBecome(rows, s, PairingOf(rows, tolerance), Sort(RunBook(rows, s, tolerance).items))
  {
    PairingIsProper(rows, tolerance);
    var p := PairingOf(rows, tolerance);
    var ordinals := OrdinalsOf(rows, s, p);
    PairsBecome(rows, s, ordinals, tolerance, |p.pairs|);
    assert p.pairs[..|p.pairs|] == p.pairs;
    SinglesBecome(rows, s, ordinals, tolerance, BookPairs(rows, s, ordinals, p.pairs), p.singles);
    SortedBecome(rows, s, p, RunBook(rows, s, tolerance).items);
  }

  /** The row stands for its pair: the outgoing leg, or the incoming one of an outgoing
      leg outside the contour. */
  ghost predicate StandsForPair(rows: seq<Row>, s: Settings, p: Pairing, k: nat, i: nat) {
    k < |p.pairs|
    && (p.pairs[k].0 == i || (p.pairs[k].1 == i && p.pairs[k].0 < |rows| && !IsHeld(s, rows[p.pairs[k].0])))
  }

  /** Which rows are submitted: of the contour, every ordinary row and every row that
      stands for its pair. */
  ghost predicate IsSent(rows: seq<Row>, s: Settings, p: Pairing, i: nat) {
    && i < |rows| && IsHeld(s, rows[i])
    && (!IsLeg(rows[i]) || exists k: nat :: StandsForPair(rows, s, p, k, i))
  }

  lemma {:induction false} PairSurvivorsAre(rows: seq<Row>, s: Settings, pairs: seq<(nat, nat)>, x: nat)
    requires InFile(rows, Pairing(pairs, []))
    ensures x in PairSurvivors(rows, s, pairs) <==> exists k | 0 <= k < |pairs| :: Survivor(rows, s, pairs[k]) == Some(x)
  {
    if pairs != [] {
      var init := pairs[..|pairs| - 1];
      PairSurvivorsAre(rows, s, init, x);
      if k :| 0 <= k < |pairs| && Survivor(rows, s, pairs[k]) == Some(x) {
        assert k < |init| ==> init[k] == pairs[k];
      }
    }
  }

  lemma {:induction false} OrdinaryIsSingle(rows: seq<Row>, tolerance: int, x: nat)
    requires x < |rows| && !IsLeg(rows[x])
    ensures x in PairingOf(rows, tolerance).singles
  {
    SelectLists(rows, Ordinary, |rows|, x);
  }

  lemma {:induction false} SurvivorStands(rows: seq<Row>, s: Settings, tolerance: int, k: nat, x: nat)
    requires k < |PairingOf(rows, tolerance).pairs| && InFile(rows, PairingOf(rows, tolerance))
    ensures Survivor(rows, s, PairingOf(rows, tolerance).pairs[k]) == Some(x)
       <==> x < |rows| && IsHeld(s, rows[x]) && StandsForPair(rows, s, PairingOf(rows, tolerance), k, x)
    ensures StandsForPair(rows, s, PairingOf(rows, tolerance), k, x) && x < |rows| ==> IsLeg(rows[x])
  {
    PairsMeet(rows, tolerance, k);
    HeldIsInside(s, rows[PairingOf(rows, tolerance).pairs[k].0]);
    HeldIsInside(s, rows[PairingOf(rows, tolerance).pairs[k].1]);
  }

  lemma {:induction false} SurvivorsStand(rows: seq<Row>, s: Settings, tolerance: int, x: nat)
    requires InFile(rows, PairingOf(rows, tolerance))
    ensures x in PairSurvivors(rows, s, PairingOf(rows, tolerance).pairs)
       <==> x < |rows| && IsHeld(s, rows[x]) && exists k: nat :: StandsForPair(rows, s, PairingOf(rows, tolerance), k, x)
  {
    var p := PairingOf(rows, tolerance);
    PairSurvivorsAre(rows, s, p.pairs, x);
    forall k | 0 <= k < |p.pairs|
      ensures Survivor(rows, s, p.pairs[k]) == Some(x)
         <==> x < |rows| && IsHeld(s, rows[x]) && StandsForPair(rows, s, p, k, x)
    {
      SurvivorStands(rows, s, tolerance, k, x);
    }
  }

  lemma {:induction false} SubmittedAreSent(rows: seq<Row>, s: Settings, tolerance: int, x: nat)
    requires InFile(rows, PairingOf(rows, tolerance))
    ensures x in SubmittedRows(rows, s, PairingOf(rows, tolerance)) <==> IsSent(rows, s, PairingOf(rows, tolerance), x)
  {
    var p := PairingOf(rows, tolerance);
    SurvivorsStand(rows, s, tolerance, x);
    SubmittedSingleWhy(rows, s, p.singles, x);
    if x < |rows| {
      HeldIsInside(s, rows[x]);
      if !IsLeg(rows[x]) {
        OrdinaryIsSingle(rows, tolerance, x);
      }
    }
  }

  /** A run submits the rows it should, in the order of the file, and every operation
      says of its own row what the columns and the tables say. */
  lemma {:induction false} OperationsMeanTheirRows(rows: seq<Row>, s: Settings, tolerance: int) returns (places: seq<nat>)
    ensures var p, operations := PairingOf(rows, tolerance), RunOperations(rows, s, tolerance);
      && |places| == |operations|
      && (forall j, k | 0 <= j < k < |places| :: places[j] < places[k])
      && (forall i: nat :: i in places <==> IsSent(rows, s, p, i))
      && (forall k | 0 <= k < |places| :: Becomes(rows, s, p, places[k], operations[k]))
  {
    RunPlaces(rows, s, tolerance);
    RunBecomes(rows, s, tolerance);
    var p := PairingOf(rows, tolerance);
    places := PlacesOf(Sort(RunBook(rows, s, tolerance).items));
    forall i: nat
      ensures i in places <==> IsSent(rows, s, p, i)
    {
      FileOrderLists(SubmittedRows(rows, s, p), |rows|, i);
      SubmittedAreSent(rows, s, tolerance, i);
    }
  }

  // ---- The summary ------------------------------------------------------------------------

  predicate IsZeroLeg(row: Row) {
    IsLeg(row) && row.amount == 0
  }

  function OutsideTerm(rows: seq<Row>, s: Settings): nat -> int {
    (i: nat) => if i < |rows| && !IsHeld(s, rows[i]) && !IsZeroLeg(rows[i]) then 1 else 0
  }

  function DeclaredTerm(rows: seq<Row>, s: Settings): nat -> int {
    (i: nat) => if i < |rows| && IsHeld(s, rows[i]) && IsDeclared(s, rows[i]) then 1 else 0
  }

  lemma {:induction false} PairCounts(rows: seq<Row>, s: Settings, ordinals: map<nat, nat>, book: Book, pair: (nat, nat), tolerance: int)
    requires IsTransfer(rows, pair, tolerance)
    ensures var after := BookPair(rows, s, ordinals, book, pair);
      && after.skippedOutsideContour == book.skippedOutsideContour + OutsideTerm(rows, s)(pair.0) + OutsideTerm(rows, s)(pair.1)
      && after.ownTransfers == book.ownTransfers
  {
    HeldIsInside(s, rows[pair.0]);
    HeldIsInside(s, rows[pair.1]);
    assert !IsZeroLeg(rows[pair.0]) && !IsZeroLeg(rows[pair.1]);
  }

  lemma {:induction false} PairsCount(rows: seq<Row>, s: Settings, ordinals: map<nat, nat>, pairs: seq<(nat, nat)>, tolerance: int)
    requires InFile(rows, Pairing(pairs, [])) && forall k | 0 <= k < |pairs| :: IsTransfer(rows, pairs[k], tolerance)
    ensures var book := BookPairs(rows, s, ordinals, pairs);
      && book.skippedOutsideContour == SumOf(Firsts(pairs), OutsideTerm(rows, s)) + SumOf(Seconds(pairs), OutsideTerm(rows, s))
      && book.ownTransfers == 0
  {
    if pairs != [] {
      var init, last := pairs[..|pairs| - 1], pairs[|pairs| - 1];
      PairsCount(rows, s, ordinals, init, tolerance);
      PairCounts(rows, s, ordinals, BookPairs(rows, s, ordinals, init), last, tolerance);
      SumSnoc(Firsts(init), last.0, OutsideTerm(rows, s));
      SumSnoc(Seconds(init), last.1, OutsideTerm(rows, s));
    }
  }

  lemma {:induction false} SinglesCount(rows: seq<Row>, s: Settings, ordinals: map<nat, nat>, book: Book, singles: seq<nat>)
    requires InFile(rows, Pairing([], singles)) && forall k | 0 <= k < |singles| :: !IsZeroLeg(rows[singles[k]])
    ensures var whole := BookSingles(rows, s, ordinals, book, singles);
      && whole.skippedOutsideContour == book.skippedOutsideContour + SumOf(singles, OutsideTerm(rows, s))
      && whole.ownTransfers == book.ownTransfers + SumOf(singles, DeclaredTerm(rows, s))
  {
    if singles != [] {
      SinglesCount(rows, s, ordinals, book, singles[..|singles| - 1]);
      HeldIsInside(s, rows[singles[|singles| - 1]]);
    }
  }

  lemma {:induction false} LegsDeclareNothing(rows: seq<Row>, s: Settings, ps: seq<nat>)
    requires forall k | 0 <= k < |ps| :: ps[k] < |rows| && IsInternalTransfer(rows[ps[k]])
    ensures SumOf(ps, DeclaredTerm(rows, s)) == 0
  {
    ZeroTerms(ps, DeclaredTerm(rows, s));
  }

  lemma {:induction false} SinglesAreNotZeroLegs(rows: seq<Row>, tolerance: int)
    ensures forall k | 0 <= k < |PairingOf(rows, tolerance).singles| ::
              PairingOf(rows, tolerance).singles[k] < |rows| && !IsZeroLeg(rows[PairingOf(rows, tolerance).singles[k]])
  {
    var singles := PairingOf(rows, tolerance).singles;
    forall k | 0 <= k < |singles|
      ensures singles[k] < |rows| && !IsZeroLeg(rows[singles[k]])
    {
      KindOfSingle(rows, tolerance, singles[k]);
    }
  }

  lemma {:induction false} TermsOverTheFile(rows: seq<Row>, s: Settings, tolerance: int)
    ensures var p := PairingOf(rows, tolerance);
      && SumOf(Positions(|rows|), OutsideTerm(rows, s))
         == SumOf(Firsts(p.pairs), OutsideTerm(rows, s)) + SumOf(Seconds(p.pairs), OutsideTerm(rows, s))
            + SumOf(p.singles, OutsideTerm(rows, s))
      && SumOf(Positions(|rows|), DeclaredTerm(rows, s)) == SumOf(p.singles, DeclaredTerm(rows, s))
  {
    var p := PairingOf(rows, tolerance);
    PairingIsSound(rows, tolerance);
    PairedLegsAreInternal(rows, p.pairs, tolerance);
    LegsDeclareNothing(rows, s, Firsts(p.pairs));
    LegsDeclareNothing(rows, s, Seconds(p.pairs));
    LegsDeclareNothing(rows, s, ZeroLegs(rows));
    ZeroTerms(ZeroLegs(rows), OutsideTerm(rows, s));
    FileSum(rows, tolerance, OutsideTerm(rows, s));
    FileSum(rows, tolerance, DeclaredTerm(rows, s));
  }

  /** The counters are counts of the file's rows: skipped are the rows outside the contour,
      zero-amount legs aside, and own transfers the contour's rows with a declared counterparty. */
  lemma {:induction false} CountersCountRows(rows: seq<Row>, s: Settings, tolerance: int)
    ensures var summary := SummaryOf(RunBook(rows, s, tolerance));
      && summary.skippedOutsideContour == SumOf(Positions(|rows|), OutsideTerm(rows, s))
      && summary.ownTransfers == SumOf(Positions(|rows|), DeclaredTerm(rows, s))
  {
    PairingIsProper(rows, tolerance);
    PairingIsSound(rows, tolerance);
    var p := PairingOf(rows, tolerance);
    var ordinals := OrdinalsOf(rows, s, p);
    SinglesAreNotZeroLegs(rows, tolerance);
    PairsCount(rows, s, ordinals, p.pairs, tolerance);
    SinglesCount(rows, s, ordinals, BookPairs(rows, s, ordinals, p.pairs), p.singles);
    TermsOverTheFile(rows, s, tolerance);
  }

  /** An entry of the summary that points a reader back at a row of the file, whose first
      line is the header. */
  predicate PointsAt(rows: seq<Row>, i: nat, line: nat, account: string, moment: int, amount: int, description: string) {
    && i < |rows| && line == i + 2
    && account == rows[i].account && moment == rows[i].moment
    && amount == rows[i].amount && description == rows[i].description
  }

  /** The unmatched legs reported are the legs of the contour that no pair holds, each once. */
  lemma {:induction false} UnmatchedPointAtTheirRows(rows: seq<Row>, s: Settings, tolerance: int) returns (places: seq<nat>)
    ensures var p, unmatched := PairingOf(rows, tolerance), SummaryOf(RunBook(rows, s, tolerance)).unmatched;
      && |places| == |unmatched|
      && (forall j, k | 0 <= j < k < |places| :: places[j] != places[k])
      && (forall i: nat :: i in places <==> i in p.singles && i < |rows| && IsLeg(rows[i]) && IsHeld(s, rows[i]))
      && (forall k | 0 <= k < |places| ::
            PointsAt(rows, places[k], unmatched[k].line, unmatched[k].account, unmatched[k].moment,
                     unmatched[k].amount, unmatched[k].description))
  {
    PairingIsProper(rows, tolerance);
    var p := PairingOf(rows, tolerance);
    var ordinals := OrdinalsOf(rows, s, p);
    PairsReportNothing(rows, s, ordinals, p.pairs);
    SinglesAreReported(rows, s, ordinals, BookPairs(rows, s, ordinals, p.pairs), p.singles);
    places := ReportedSingles(rows, s, p.singles);
    forall i: nat
      ensures i in places <==> i in p.singles && i < |rows| && IsLeg(rows[i]) && IsHeld(s, rows[i])
      ensures Occurs(places, i) <= 1
    {
      ReportedWhy(rows, s, p.singles, i);
      assert Uses(p, i) <= 1;
    }
    OnceMeansDistinct(places);
  }

  /** The pairs folded into one transfer, by their place among the pairs. */
  function FoldedPairs(rows: seq<Row>, s: Settings, pairs: seq<(nat, nat)>): (ks: seq<nat>)
    requires InFile(rows, Pairing(pairs, []))
    ensures forall m | 0 <= m < |ks| :: ks[m] < |pairs|
  {
    if pairs == [] then []
    else
      var before, last := FoldedPairs(rows, s, pairs[..|pairs| - 1]), pairs[|pairs| - 1];
      if IsHeld(s, rows[last.0]) && IsHeld(s, rows[last.1]) then before + [|pairs| - 1] else before
  }

  /** Which pairs those are: each that has both legs in the contour, once, in order. */
  lemma {:induction false} FoldedPairsAre(rows: seq<Row>, s: Settings, pairs: seq<(nat, nat)>)
    requires InFile(rows, Pairing(pairs, []))
    ensures var ks := FoldedPairs(rows, s, pairs);
      && (forall a, b | 0 <= a < b < |ks| :: ks[a] < ks[b])
      && (forall k: nat :: k in ks <==> k < |pairs| && IsHeld(s, rows[pairs[k].0]) && IsHeld(s, rows[pairs[k].1]))
  {
    if pairs != [] {
      FoldedPairsAre(rows, s, pairs[..|pairs| - 1]);
    }
  }

  ghost predicate PointAtFolded(rows: seq<Row>, pairs: seq<(nat, nat)>, legs: seq<DroppedLeg>, ks: seq<nat>) {
    && |legs| == |ks|
    && forall m | 0 <= m < |ks| ::
         && ks[m] < |pairs|
         && PointsAt(rows, pairs[ks[m]].1, legs[m].line, legs[m].account, legs[m].moment, legs[m].amount, legs[m].description)
  }

  lemma {:induction false} PairsDrop(rows: seq<Row>, s: Settings, ordinals: map<nat, nat>, pairs: seq<(nat, nat)>)
    requires InFile(rows, Pairing(pairs, []))
    ensures PointAtFolded(rows, pairs, BookPairs(rows, s, ordinals, pairs).droppedLegs, FoldedPairs(rows, s, pairs))
  {
    if pairs != [] {
      var init, last := pairs[..|pairs| - 1], pairs[|pairs| - 1];
      PairsDrop(rows, s, ordinals, init);
      HeldIsInside(s, rows[last.0]);
      HeldIsInside(s, rows[last.1]);
    }
  }

  /** The dropped legs reported are the incoming legs of the pairs with both legs in the
      contour, each once, in the order of the pairs. */
  lemma {:induction false} DroppedPointAtTheirRows(rows: seq<Row>, s: Settings, tolerance: int) returns (ks: seq<nat>)
    ensures var p, dropped := PairingOf(rows, tolerance), SummaryOf(RunBook(rows, s, tolerance)).droppedLegs;
      && InFile(rows, p)
      && PointAtFolded(rows, p.pairs, dropped, ks)
      && (forall a, b | 0 <= a < b < |ks| :: ks[a] < ks[b])
      && (forall k: nat :: k in ks <==> k < |p.pairs| && IsHeld(s, rows[p.pairs[k].0]) && IsHeld(s, rows[p.pairs[k].1]))
  {
    PairingIsProper(rows, tolerance);
    var p := PairingOf(rows, tolerance);
    var ordinals := OrdinalsOf(rows, s, p);
    PairsDrop(rows, s, ordinals, p.pairs);
    SinglesKeepFolded(rows, s, ordinals, BookPairs(rows, s, ordinals, p.pairs), p.singles);
    FoldedPairsAre(rows, s, p.pairs);
    ks := FoldedPairs(rows, s, p.pairs);
  }
}
