/** The importer's run over a file, in the steps `build` takes. */
module ImportRun {
  import opened Outcomes
  import opened StableSorting
  import opened ExportRows
  import opened TransferPairing
  import opened PairingLaws
  import opened PairingQuality
  import opened ImportBuild

  // ---- What the pairing provides -------------------------------------------

  ghost function Uses(p: Pairing, x: nat): nat {
    Occurs(Firsts(p.pairs), x) + Occurs(Seconds(p.pairs), x) + Occurs(p.singles, x)
  }

  /** The lists of a pairing name rows of the file, and no row twice. */
  ghost predicate Proper(rows: seq<Row>, p: Pairing) {
    && InFile(rows, p)
    && forall x: nat :: Uses(p, x) <= 1
  }

  lemma {:induction false} PairingIsProper(rows: seq<Row>, tolerance: int)
    ensures Proper(rows, PairingOf(rows, tolerance))
  {
    var p := PairingOf(rows, tolerance);
    forall x: nat
      ensures Uses(p, x) <= 1
    {
      UsedOnce(rows, tolerance, x);
    }
    forall k | 0 <= k < |p.pairs|
      ensures p.pairs[k].0 < |rows| && p.pairs[k].1 < |rows|
    {
      UsedOnce(rows, tolerance, p.pairs[k].0);
      UsedOnce(rows, tolerance, p.pairs[k].1);
      OccursMember(Firsts(p.pairs), k);
      OccursMember(Seconds(p.pairs), k);
    }
    forall k | 0 <= k < |p.singles|
      ensures p.singles[k] < |rows|
    {
      UsedOnce(rows, tolerance, p.singles[k]);
      OccursMember(p.singles, k);
    }
  }

  lemma {:induction false} SurvivorIsUsed(rows: seq<Row>, s: Settings, pairs: seq<(nat, nat)>, x: nat)
    requires InFile(rows, Pairing(pairs, [])) && x in PairSurvivors(rows, s, pairs)
    ensures Occurs(Firsts(pairs), x) + Occurs(Seconds(pairs), x) >= 1
    ensures x < |rows| && Inside(s, rows[x])
  {
    var init, last := pairs[..|pairs| - 1], pairs[|pairs| - 1];
    assert pairs == init + [last];
    PairsSnoc(init, last);
    OccursSnoc(Firsts(init), last.0, x);
    OccursSnoc(Seconds(init), last.1, x);
    if Survivor(rows, s, last) != Some(x) {
      SurvivorIsUsed(rows, s, init, x);
    }
  }

  lemma {:induction false} SubmittedSingleWhy(rows: seq<Row>, s: Settings, singles: seq<nat>, x: nat)
    requires InFile(rows, Pairing([], singles))
    ensures x in SubmittedSingles(rows, s, singles) <==> x in singles && IsSubmittedSingle(s, rows[x])
  {
    if singles != [] {
      SubmittedSingleWhy(rows, s, singles[..|singles| - 1], x);
      assert singles == singles[..|singles| - 1] + [singles[|singles| - 1]];
    }
  }

  /** A leg left unmatched is not also submitted. */
  lemma {:induction false} UnmatchedIsNotSubmitted(rows: seq<Row>, s: Settings, p: Pairing, k: nat)
    requires Proper(rows, p) && k < |p.singles| && IsUnmatched(s, rows[p.singles[k]])
    ensures p.singles[k] !in SubmittedRows(rows, s, p)
    ensures p.singles[k] !in p.singles[..k]
  {
    var x := p.singles[k];
    OccursMember(p.singles, k);
    assert Uses(p, x) <= 1;
    if x in PairSurvivors(rows, s, p.pairs) {
      SurvivorIsUsed(rows, s, p.pairs, x);
      assert false;
    }
    SubmittedSingleWhy(rows, s, p.singles, x);
    assert p.singles == p.singles[..k] + p.singles[k..];
    OccursConcat(p.singles[..k], p.singles[k..], x);
    OccursMember(p.singles[k..], 0);
    if x in p.singles[..k] {
      var j :| 0 <= j < k && p.singles[..k][j] == x;
      OccursMember(p.singles[..k], j);
      assert false;
    }
  }

  // ---- The run ---------------------------------------------------------------

  method PairAccounts(rows: seq<Row>, s: Settings, pairs: seq<(nat, nat)>) returns (canonical: map<nat, string>)
    requires InFile(rows, Pairing(pairs, []))
    ensures canonical.Keys == PairSurvivors(rows, s, pairs)
    ensures forall i | i in canonical :: i < |rows| && canonical[i] == IdOf(s, rows[i])
  {
    canonical := map[];
    for k := 0 to |pairs|
      invariant canonical.Keys == PairSurvivors(rows, s, pairs[..k])
      invariant forall i | i in canonical :: i < |rows| && canonical[i] == IdOf(s, rows[i])
    {
      var (out, inn) := pairs[k];
      var outId, inId := IdOf(s, rows[out]), IdOf(s, rows[inn]);
      assert pairs[..k + 1][..k] == pairs[..k];
      if outId != "" && inId != "" {
        canonical := canonical[out := outId];
      } else if outId != "" || inId != "" {
        var inside := if outId != "" then out else inn;
        canonical := canonical[inside := if outId != "" then outId else inId];
      }
    }
    assert pairs[..|pairs|] == pairs;
  }

  /** The account every submitted row is keyed by. */
  method CanonicalAccounts(rows: seq<Row>, s: Settings, p: Pairing) returns (canonical: map<nat, string>)
    requires InFile(rows, p)
    ensures canonical.Keys == SubmittedRows(rows, s, p)
    ensures forall i | i in canonical :: i < |rows| && canonical[i] == IdOf(s, rows[i])
  {
    canonical := PairAccounts(rows, s, p.pairs);
    for k := 0 to |p.singles|
      invariant canonical.Keys == PairSurvivors(rows, s, p.pairs) + SubmittedSingles(rows, s, p.singles[..k])
      invariant forall i | i in canonical :: i < |rows| && canonical[i] == IdOf(s, rows[i])
    {
      var i := p.singles[k];
      var account := IdOf(s, rows[i]);
      assert p.singles[..k + 1][..k] == p.singles[..k];
      if account != "" && !IsInternalTransfer(rows[i]) {
        canonical := canonical[i := account];
      }
    }
    assert p.singles[..|p.singles|] == p.singles;
  }

  /** Count one more row of a group, and give the row that number. */
  method NumberRow(rows: seq<Row>, s: Settings, i: nat, account: string,
                   ordinals: map<Group, nat>, rowOrdinals: map<nat, nat>, ghost done: seq<nat>)
    returns (ordinals': map<Group, nat>, rowOrdinals': map<nat, nat>)
    requires i < |rows| && account == IdOf(s, rows[i])
    requires AllBelow(done, |rows|) && ordinals == Tally(rows, s, done) && rowOrdinals == Numbering(rows, s, done)
    ensures AllBelow(done + [i], |rows|)
    ensures ordinals' == Tally(rows, s, done + [i]) && rowOrdinals' == Numbering(rows, s, done + [i])
  {
    var g := Group(account, DayOf(rows[i]), s.digest(rows[i].raw));
    NumberingSnoc(rows, s, done, i);
    ordinals' := ordinals[g := Reading(ordinals, g) + 1];
    rowOrdinals' := rowOrdinals[i := ordinals'[g]];
  }

  lemma {:induction false} FileOrderSnoc(chosen: set<nat>, n: nat)
    ensures InFileOrder(chosen, n + 1) == if n in chosen then InFileOrder(chosen, n) + [n] else InFileOrder(chosen, n)
  {
  }

  /** The first counting pass: submitted rows, in file order. */
  method NumberSubmitted(rows: seq<Row>, s: Settings, canonical: map<nat, string>)
    returns (ordinals: map<Group, nat>, rowOrdinals: map<nat, nat>)
    requires forall i | i in canonical :: i < |rows| && canonical[i] == IdOf(s, rows[i])
    ensures var done := InFileOrder(canonical.Keys, |rows|);
            AllBelow(done, |rows|) && ordinals == Tally(rows, s, done) && rowOrdinals == Numbering(rows, s, done)
  {
    ordinals, rowOrdinals := map[], map[];
    ghost var done: seq<nat> := [];
    for i := 0 to |rows|
      invariant done == InFileOrder(canonical.Keys, i)
      invariant AllBelow(done, |rows|) && ordinals == Tally(rows, s, done) && rowOrdinals == Numbering(rows, s, done)
    {
      FileOrderSnoc(canonical.Keys, i);
      if i in canonical {
        ordinals, rowOrdinals := NumberRow(rows, s, i, canonical[i], ordinals, rowOrdinals, done);
        done := done + [i];
      }
    }
  }

  lemma {:induction false} UnmatchedSnoc(rows: seq<Row>, s: Settings, singles: seq<nat>, k: nat)
    requires InFile(rows, Pairing([], singles)) && k < |singles|
    ensures var before := UnmatchedAmong(rows, s, singles[..k]);
            UnmatchedAmong(rows, s, singles[..k + 1])
            == if IsUnmatched(s, rows[singles[k]]) then before + [singles[k]] else before
  {
    assert singles[..k + 1][..k] == singles[..k];
  }

  lemma {:induction false} FileOrderLists(chosen: set<nat>, n: nat, x: nat)
    ensures x in InFileOrder(chosen, n) <==> x < n && x in chosen
  {
    if n > 0 {
      FileOrderLists(chosen, n - 1, x);
    }
  }

  lemma {:induction false} UnmatchedWhy(rows: seq<Row>, s: Settings, singles: seq<nat>, x: nat)
    requires InFile(rows, Pairing([], singles))
    ensures x in UnmatchedAmong(rows, s, singles) <==> x in singles && x < |rows| && IsUnmatched(s, rows[x])
  {
    if singles != [] {
      UnmatchedWhy(rows, s, singles[..|singles| - 1], x);
      assert singles == singles[..|singles| - 1] + [singles[|singles| - 1]];
    }
  }

  lemma {:induction false} UnmatchedNotYetNumbered(rows: seq<Row>, s: Settings, p: Pairing, k: nat)
    requires Proper(rows, p) && k < |p.singles| && IsUnmatched(s, rows[p.singles[k]])
    ensures p.singles[k] !in InFileOrder(SubmittedRows(rows, s, p), |rows|) + UnmatchedAmong(rows, s, p.singles[..k])
  {
    UnmatchedIsNotSubmitted(rows, s, p, k);
    FileOrderLists(SubmittedRows(rows, s, p), |rows|, p.singles[k]);
    UnmatchedWhy(rows, s, p.singles[..k], p.singles[k]);
  }

  /** No unmatched leg has been numbered before its turn. */
  ghost predicate ComesFresh(rows: seq<Row>, s: Settings, singles: seq<nat>, first: seq<nat>)
    requires InFile(rows, Pairing([], singles))
  {
    forall k | 0 <= k < |singles| && IsUnmatched(s, rows[singles[k]]) ::
      singles[k] !in first + UnmatchedAmong(rows, s, singles[..k])
  }

  /** What one single adds to the rows numbered so far. */
  lemma {:induction false} NextUnmatched(rows: seq<Row>, s: Settings, singles: seq<nat>, first: seq<nat>, k: nat)
    requires InFile(rows, Pairing([], singles)) && AllBelow(first, |rows|) && ComesFresh(rows, s, singles, first)
    requires k < |singles|
    ensures var done := first + UnmatchedAmong(rows, s, singles[..k]);
            && AllBelow(done, |rows|)
            && first + UnmatchedAmong(rows, s, singles[..k + 1])
               == (if IsUnmatched(s, rows[singles[k]]) then done + [singles[k]] else done)
            && (singles[k] in Numbering(rows, s, done) ==> !IsUnmatched(s, rows[singles[k]]))
  {
    UnmatchedSnoc(rows, s, singles, k);
    NumberedAreListed(rows, s, first + UnmatchedAmong(rows, s, singles[..k]), singles[k]);
  }

  /** The second counting pass: unmatched legs, over the same counters. */
  method NumberUnmatched(rows: seq<Row>, s: Settings, singles: seq<nat>, ghost first: seq<nat>,
                         ordinals0: map<Group, nat>, rowOrdinals0: map<nat, nat>)
    returns (rowOrdinals: map<nat, nat>)
    requires InFile(rows, Pairing([], singles)) && AllBelow(first, |rows|) && ComesFresh(rows, s, singles, first)
    requires ordinals0 == Tally(rows, s, first) && rowOrdinals0 == Numbering(rows, s, first)
    ensures AllBelow(first + UnmatchedAmong(rows, s, singles), |rows|)
    ensures rowOrdinals == Numbering(rows, s, first + UnmatchedAmong(rows, s, singles))
  {
    var ordinals := ordinals0;
    rowOrdinals := rowOrdinals0;
    ghost var done := first;
    for k := 0 to |singles|
      invariant done == first + UnmatchedAmong(rows, s, singles[..k])
      invariant AllBelow(done, |rows|) && ordinals == Tally(rows, s, done) && rowOrdinals == Numbering(rows, s, done)
    {
      var i := singles[k];
      NextUnmatched(rows, s, singles, first, k);
      if i in rowOrdinals {
        continue;
      }
      if rows[i].account in s.accounts && IsInternalTransfer(rows[i]) {
        ordinals, rowOrdinals := NumberRow(rows, s, i, IdOf(s, rows[i]), ordinals, rowOrdinals, done);
        done := done + [i];
      }
    }
    assert singles[..|singles|] == singles;
  }

  /** The two counting passes: submitted rows in file order, then unmatched legs. */
  method NumberRows(rows: seq<Row>, s: Settings, p: Pairing, canonical: map<nat, string>)
    returns (rowOrdinals: map<nat, nat>)
    requires Proper(rows, p)
    requires canonical.Keys == SubmittedRows(rows, s, p)
    requires forall i | i in canonical :: i < |rows| && canonical[i] == IdOf(s, rows[i])
    ensures rowOrdinals == OrdinalsOf(rows, s, p)
  {
    var ordinals;
    ordinals, rowOrdinals := NumberSubmitted(rows, s, canonical);
    ghost var first := InFileOrder(canonical.Keys, |rows|);
    forall k | 0 <= k < |p.singles| && IsUnmatched(s, rows[p.singles[k]])
      ensures p.singles[k] !in first + UnmatchedAmong(rows, s, p.singles[..k])
    {
      UnmatchedNotYetNumbered(rows, s, p, k);
    }
    rowOrdinals := NumberUnmatched(rows, s, p.singles, first, ordinals, rowOrdinals);
  }

  lemma {:induction false} SurvivorIsListed(rows: seq<Row>, s: Settings, pairs: seq<(nat, nat)>, k: nat)
    requires InFile(rows, Pairing(pairs, [])) && k < |pairs|
    ensures var survivor := Survivor(rows, s, pairs[k]);
            survivor.Some? ==> survivor.value in PairSurvivors(rows, s, pairs)
  {
    if k < |pairs| - 1 {
      SurvivorIsListed(rows, s, pairs[..|pairs| - 1], k);
    }
  }

  ghost predicate SurvivorsAreNumbered(rows: seq<Row>, s: Settings, pairs: seq<(nat, nat)>, rowOrdinals: map<nat, nat>)
    requires InFile(rows, Pairing(pairs, []))
  {
    forall k | 0 <= k < |pairs| && Survivor(rows, s, pairs[k]).Some? :: Survivor(rows, s, pairs[k]).value in rowOrdinals
  }

  ghost predicate SinglesAreNumbered(rows: seq<Row>, s: Settings, singles: seq<nat>, rowOrdinals: map<nat, nat>)
    requires InFile(rows, Pairing([], singles))
  {
    forall k | 0 <= k < |singles| && Inside(s, rows[singles[k]]) :: singles[k] in rowOrdinals
  }

  /** Every key the run asks for can be computed. */
  lemma {:induction false} KeyedRowsAreNumbered(rows: seq<Row>, s: Settings, p: Pairing)
    requires Proper(rows, p)
    ensures SurvivorsAreNumbered(rows, s, p.pairs, OrdinalsOf(rows, s, p))
    ensures SinglesAreNumbered(rows, s, p.singles, OrdinalsOf(rows, s, p))
  {
    var order := NumberedRows(rows, s, p);
    forall k | 0 <= k < |p.pairs| && Survivor(rows, s, p.pairs[k]).Some?
      ensures Survivor(rows, s, p.pairs[k]).value in OrdinalsOf(rows, s, p)
    {
      var i := Survivor(rows, s, p.pairs[k]).value;
      SurvivorIsListed(rows, s, p.pairs, k);
      FileOrderLists(SubmittedRows(rows, s, p), |rows|, i);
      NumberedAreListed(rows, s, order, i);
    }
    forall k | 0 <= k < |p.singles| && Inside(s, rows[p.singles[k]])
      ensures p.singles[k] in OrdinalsOf(rows, s, p)
    {
      var i := p.singles[k];
      SubmittedSingleWhy(rows, s, p.singles, i);
      FileOrderLists(SubmittedRows(rows, s, p), |rows|, i);
      UnmatchedWhy(rows, s, p.singles, i);
      NumberedAreListed(rows, s, order, i);
    }
  }

  method BookAllPairs(rows: seq<Row>, s: Settings, pairs: seq<(nat, nat)>, rowOrdinals: map<nat, nat>) returns (book: Book)
    requires InFile(rows, Pairing(pairs, [])) && SurvivorsAreNumbered(rows, s, pairs, rowOrdinals)
    ensures book == BookPairs(rows, s, rowOrdinals, pairs)
  {
    book := EMPTY_BOOK;
    for k := 0 to |pairs|
      invariant book == BookPairs(rows, s, rowOrdinals, pairs[..k])
    {
      var (out, inn) := pairs[k];
      var outId, inId := IdOf(s, rows[out]), IdOf(s, rows[inn]);
      assert pairs[..k + 1][..k] == pairs[..k];
      if outId != "" && inId != "" {
        var key := RowKey(outId, s.channel, s.digest(rows[out].raw), rowOrdinals[out]);
        var operation := OperationOf(rows[out], outId, key).(flow := Transfer(inId));
        book := book.(items := book.items + [Keyed(Single(out), operation)],
                      droppedSecondLeg := book.droppedSecondLeg + 1,
                      droppedLegs := book.droppedLegs + [Dropped(rows, inn, operation.key)]);
      } else if outId != "" || inId != "" {
        var inside := if outId != "" then out else inn;
        var account := if outId != "" then outId else inId;
        var key := RowKey(account, s.channel, s.digest(rows[inside].raw), rowOrdinals[inside]);
        book := book.(items := book.items + [Keyed(Single(inside), OperationOf(rows[inside], account, key))],
                      skippedOutsideContour := book.skippedOutsideContour + 1);
      } else {
        book := book.(skippedOutsideContour := book.skippedOutsideContour + 2);
      }
    }
    assert pairs[..|pairs|] == pairs;
  }

  method BookAllSingles(rows: seq<Row>, s: Settings, singles: seq<nat>, rowOrdinals: map<nat, nat>, start: Book)
    returns (book: Book)
    requires InFile(rows, Pairing([], singles)) && SinglesAreNumbered(rows, s, singles, rowOrdinals)
    ensures book == BookSingles(rows, s, rowOrdinals, start, singles)
  {
    book := start;
    for k := 0 to |singles|
      invariant book == BookSingles(rows, s, rowOrdinals, start, singles[..k])
    {
      var i := singles[k];
      var account := IdOf(s, rows[i]);
      assert singles[..k + 1][..k] == singles[..k];
      if account == "" {
        book := book.(skippedOutsideContour := book.skippedOutsideContour + 1);
        continue;
      }
      var key := RowKey(account, s.channel, s.digest(rows[i].raw), rowOrdinals[i]);
      if IsInternalTransfer(rows[i]) {
        book := book.(unmatchedLegs := book.unmatchedLegs + 1,
                      unmatched := book.unmatched + [Unmatched(rows, i, key)]);
        continue;
      }
      var other := DeclaredOther(s, rows[i]);
      if other != "" {
        book := book.(items := book.items + [Keyed(Single(i), TransferToOwnAccount(rows[i], account, other, key))],
                      ownTransfers := book.ownTransfers + 1);
      } else {
        book := book.(items := book.items + [Keyed(Single(i), OperationOf(rows[i], account, key))]);
      }
    }
    assert singles[..|singles|] == singles;
  }

  /** The book a whole run keeps. */
  ghost function RunBook(rows: seq<Row>, s: Settings, tolerance: int): Book {
    PairingIsProper(rows, tolerance);
    var p := PairingOf(rows, tolerance);
    BookOf(rows, s, OrdinalsOf(rows, s, p), p)
  }

  /** The operations of a run, in the order of the rows they came from. */
  ghost function RunOperations(rows: seq<Row>, s: Settings, tolerance: int): seq<Operation> {
    Items(Sort(RunBook(rows, s, tolerance).items))
  }

  method Build(rows: seq<Row>, s: Settings, tolerance: int) returns (operations: seq<Operation>, summary: Summary)
    ensures operations == RunOperations(rows, s, tolerance)
    ensures summary == SummaryOf(RunBook(rows, s, tolerance))
  {
    var p := PairLegs(rows, tolerance);
    PairingIsProper(rows, tolerance);
    var canonical := CanonicalAccounts(rows, s, p);
    var rowOrdinals := NumberRows(rows, s, p, canonical);
    KeyedRowsAreNumbered(rows, s, p);
    var book := BookAllPairs(rows, s, p.pairs, rowOrdinals);
    book := BookAllSingles(rows, s, p.singles, rowOrdinals, book);
    operations := Items(Sort(book.items));
    SortIsPermutation(book.items);
    summary := Summary(|operations|, book.droppedSecondLeg, book.droppedLegs, book.skippedOutsideContour,
                       book.unmatchedLegs, book.unmatched, book.ownTransfers);
  }
}
