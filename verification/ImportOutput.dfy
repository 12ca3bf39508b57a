/** The same facts read off what a run returns: its operations and its summary. */
module ImportOutput {
  import opened StableSorting
  import opened Sums
  import opened ExportRows
  import opened TransferPairing
  import opened PairingLaws
  import opened PairingQuality
  import opened ImportBuild
  import opened ImportRun
  import opened ImportConservation
  import opened ImportKeys

  // ---- Where each operation comes from --------------------------------------

  function PairPlaces(rows: seq<Row>, s: Settings, pairs: seq<(nat, nat)>): seq<nat>
    requires InFile(rows, Pairing(pairs, []))
  {
    if pairs == [] then []
    else
      var before, survivor := PairPlaces(rows, s, pairs[..|pairs| - 1]), Survivor(rows, s, pairs[|pairs| - 1]);
      if survivor.Some? then before + [survivor.value] else before
  }

  function SinglePlaces(rows: seq<Row>, s: Settings, singles: seq<nat>): seq<nat>
    requires InFile(rows, Pairing([], singles))
  {
    if singles == [] then []
    else
      var before, last := SinglePlaces(rows, s, singles[..|singles| - 1]), singles[|singles| - 1];
      if IsSubmittedSingle(s, rows[last]) then before + [last] else before
  }

  /** An operation tells of the row at its place, under that row's key. */
  ghost predicate TellsOf(rows: seq<Row>, s: Settings, ordinals: map<nat, nat>, i: nat, operation: Operation) {
    && i < |rows|
    && Inside(s, rows[i])
    && operation.key == KeyFor(rows, s, ordinals, i)
    && operation.amount == Abs(rows[i].amount)
    && operation.posted == DayOf(rows[i])
    && operation.sourceCategory == rows[i].category
    && operation.description == rows[i].description
  }

  ghost predicate Placed(rows: seq<Row>, s: Settings, ordinals: map<nat, nat>, items: seq<Keyed<Operation>>, places: seq<nat>) {
    && |items| == |places|
    && forall k | 0 <= k < |items| ::
         items[k].rank == Single(places[k]) && TellsOf(rows, s, ordinals, places[k], items[k].item)
  }

  lemma {:induction false} PairsArePlaced(rows: seq<Row>, s: Settings, ordinals: map<nat, nat>, pairs: seq<(nat, nat)>)
    requires InFile(rows, Pairing(pairs, []))
    ensures Placed(rows, s, ordinals, BookPairs(rows, s, ordinals, pairs).items, PairPlaces(rows, s, pairs))
  {
    if pairs != [] {
      PairsArePlaced(rows, s, ordinals, pairs[..|pairs| - 1]);
    }
  }

  lemma {:induction false} SinglesArePlaced(rows: seq<Row>, s: Settings, ordinals: map<nat, nat>, book: Book, places: seq<nat>, singles: seq<nat>)
    requires InFile(rows, Pairing([], singles)) && Placed(rows, s, ordinals, book.items, places)
    ensures Placed(rows, s, ordinals, BookSingles(rows, s, ordinals, book, singles).items, places + SinglePlaces(rows, s, singles))
  {
    if singles == [] {
      assert places + [] == places;
    } else {
      var init, last := singles[..|singles| - 1], singles[|singles| - 1];
      SinglesArePlaced(rows, s, ordinals, book, places, init);
      if IsSubmittedSingle(s, rows[last]) {
        assert places + SinglePlaces(rows, s, singles) == (places + SinglePlaces(rows, s, init)) + [last];
      }
    }
  }

  lemma {:induction false} PairPlacesAreSurvivors(rows: seq<Row>, s: Settings, pairs: seq<(nat, nat)>, x: nat)
    requires InFile(rows, Pairing(pairs, []))
    ensures x in PairPlaces(rows, s, pairs) <==> x in PairSurvivors(rows, s, pairs)
  {
    if pairs != [] {
      PairPlacesAreSurvivors(rows, s, pairs[..|pairs| - 1], x);
    }
  }

  lemma {:induction false} PairPlacesOccur(rows: seq<Row>, s: Settings, pairs: seq<(nat, nat)>, x: nat)
    requires InFile(rows, Pairing(pairs, []))
    ensures Occurs(PairPlaces(rows, s, pairs), x) <= Occurs(Firsts(pairs), x) + Occurs(Seconds(pairs), x)
  {
    if pairs != [] {
      var init, last := pairs[..|pairs| - 1], pairs[|pairs| - 1];
      PairPlacesOccur(rows, s, init, x);
      var survivor := Survivor(rows, s, last);
      if survivor.Some? {
        assert survivor.value == last.0 || survivor.value == last.1;
        OccursSnoc(PairPlaces(rows, s, init), survivor.value, x);
      }
      OccursSnoc(Firsts(init), last.0, x);
      OccursSnoc(Seconds(init), last.1, x);
    }
  }

  lemma {:induction false} SinglePlacesOccur(rows: seq<Row>, s: Settings, singles: seq<nat>, x: nat)
    requires InFile(rows, Pairing([], singles))
    ensures Occurs(SinglePlaces(rows, s, singles), x) <= Occurs(singles, x)
    ensures x in SinglePlaces(rows, s, singles) <==> x in SubmittedSingles(rows, s, singles)
  {
    if singles != [] {
      var init, last := singles[..|singles| - 1], singles[|singles| - 1];
      SinglePlacesOccur(rows, s, init, x);
      if IsSubmittedSingle(s, rows[last]) {
        OccursSnoc(SinglePlaces(rows, s, init), last, x);
      }
    }
  }

  function Places(rows: seq<Row>, s: Settings, p: Pairing): seq<nat>
    requires InFile(rows, p)
  {
    PairPlaces(rows, s, p.pairs) + SinglePlaces(rows, s, p.singles)
  }

  lemma {:induction false} PlacesAreTheSubmittedRows(rows: seq<Row>, s: Settings, p: Pairing)
    requires Proper(rows, p)
    ensures NoRepeats(Places(rows, s, p))
    ensures forall x: nat :: x in Places(rows, s, p) <==> x in SubmittedRows(rows, s, p)
  {
    forall x: nat
      ensures Occurs(Places(rows, s, p), x) <= 1
      ensures x in Places(rows, s, p) <==> x in SubmittedRows(rows, s, p)
    {
      PairPlacesOccur(rows, s, p.pairs, x);
      PairPlacesAreSurvivors(rows, s, p.pairs, x);
      SinglePlacesOccur(rows, s, p.singles, x);
      OccursConcat(PairPlaces(rows, s, p.pairs), SinglePlaces(rows, s, p.singles), x);
      assert Uses(p, x) <= 1;
    }
    OnceMeansDistinct(Places(rows, s, p));
  }

  // ---- File order --------------------------------------------------------------

  ghost predicate Ascends(ps: seq<nat>) {
    forall j, k | 0 <= j < k < |ps| :: ps[j] < ps[k]
  }

  ghost predicate SamePlaces(ps: seq<nat>, qs: seq<nat>) {
    forall x: nat :: x in ps <==> x in qs
  }

  lemma {:induction false} LastPlacesAgree(ps: seq<nat>, qs: seq<nat>)
    requires Ascends(ps) && Ascends(qs) && SamePlaces(ps, qs) && ps != []
    ensures qs != [] && ps[|ps| - 1] == qs[|qs| - 1]
  {
    assert ps[|ps| - 1] in qs;
    assert qs[|qs| - 1] in ps;
  }

  lemma {:induction false} NotAmongSmaller(ps: seq<nat>, x: nat)
    requires Ascends(ps + [x])
    ensures Ascends(ps) && x !in ps
  {
    var all := ps + [x];
    assert all[|ps|] == x;
    assert forall i | 0 <= i < |ps| :: ps[i] == all[i];
  }

  lemma {:induction false} EarlierPlacesAgree(ps: seq<nat>, qs: seq<nat>, x: nat)
    requires Ascends(ps + [x]) && Ascends(qs + [x]) && SamePlaces(ps + [x], qs + [x])
    ensures Ascends(ps) && Ascends(qs) && SamePlaces(ps, qs)
  {
    NotAmongSmaller(ps, x);
    NotAmongSmaller(qs, x);
    forall y: nat
      ensures y in ps <==> y in qs
    {
      assert y in ps + [x] <==> y in qs + [x];
    }
  }

  lemma {:induction false} AscendingIsUnique(ps: seq<nat>, qs: seq<nat>)
    requires Ascends(ps) && Ascends(qs) && SamePlaces(ps, qs)
    ensures ps == qs
    decreases |ps|
  {
    assert qs != [] ==> qs[0] in qs;
    if ps != [] {
      LastPlacesAgree(ps, qs);
      var ps', qs', x := ps[..|ps| - 1], qs[..|qs| - 1], ps[|ps| - 1];
      assert ps == ps' + [x] && qs == qs' + [x];
      EarlierPlacesAgree(ps', qs', x);
      AscendingIsUnique(ps', qs');
    }
  }

  /** The places of a list of items, and the items in the order of their places. */
  ghost function PlacesOf(items: seq<Keyed<Operation>>): (ps: seq<nat>)
    requires forall k | 0 <= k < |items| :: items[k].rank.first >= 0
    ensures |ps| == |items| && forall k | 0 <= k < |items| :: ps[k] == items[k].rank.first
  {
    seq(|items|, k requires 0 <= k < |items| => items[k].rank.first as nat)
  }

  lemma {:induction false} PlacedRanksDiffer(rows: seq<Row>, s: Settings, ordinals: map<nat, nat>, items: seq<Keyed<Operation>>, places: seq<nat>)
    requires Placed(rows, s, ordinals, items, places) && NoRepeats(places)
    ensures RanksDiffer(items)
  {
    forall i, j | 0 <= i < j < |items|
      ensures items[i].rank != items[j].rank
    {
      assert places[i] != places[j];
    }
  }

  /** An element of a placed list: its rank is its place, and it tells of that row. */
  ghost predicate WellPlaced(rows: seq<Row>, s: Settings, ordinals: map<nat, nat>, x: Keyed<Operation>) {
    x.rank.first >= 0 && x.rank == Single(x.rank.first) && TellsOf(rows, s, ordinals, x.rank.first, x.item)
  }

  lemma {:induction false} SortedItemsAreWellPlaced(rows: seq<Row>, s: Settings, ordinals: map<nat, nat>, items: seq<Keyed<Operation>>, places: seq<nat>)
    requires Placed(rows, s, ordinals, items, places) && NoRepeats(places)
    ensures Sorted(Sort(items)) && RanksDiffer(Sort(items))
    ensures forall k | 0 <= k < |Sort(items)| :: WellPlaced(rows, s, ordinals, Sort(items)[k])
  {
    var sorted := Sort(items);
    PlacedRanksDiffer(rows, s, ordinals, items, places);
    SortSorts(items);
    SortKeepsDifferent(items);
    forall k | 0 <= k < |sorted|
      ensures WellPlaced(rows, s, ordinals, sorted[k])
    {
      assert sorted[k] in sorted;
      var i :| 0 <= i < |items| && items[i] == sorted[k];
    }
  }

  lemma {:induction false} SortKeepsPlaces(rows: seq<Row>, s: Settings, ordinals: map<nat, nat>, items: seq<Keyed<Operation>>, places: seq<nat>, x: nat)
    requires Placed(rows, s, ordinals, items, places) && NoRepeats(places)
    requires forall k | 0 <= k < |Sort(items)| :: Sort(items)[k].rank.first >= 0
    ensures x in PlacesOf(Sort(items)) <==> x in places
  {
    var sorted := Sort(items);
    var ps := PlacesOf(sorted);
    SortIsPermutation(items);
    if x in ps {
      var k :| 0 <= k < |ps| && ps[k] == x;
      assert sorted[k] in multiset(items);
      var i :| 0 <= i < |items| && sorted[k] == items[i];
      assert places[i] == x;
    }
    if x in places {
      var i :| 0 <= i < |places| && places[i] == x;
      assert items[i] in multiset(sorted);
      var k :| 0 <= k < |sorted| && sorted[k] == items[i];
      assert ps[k] == x;
    }
  }

  lemma {:induction false} SortedItemsArePlaced(rows: seq<Row>, s: Settings, ordinals: map<nat, nat>, items: seq<Keyed<Operation>>, places: seq<nat>)
    requires Placed(rows, s, ordinals, items, places) && NoRepeats(places)
    ensures forall k | 0 <= k < |Sort(items)| :: Sort(items)[k].rank.first >= 0
    ensures Ascends(PlacesOf(Sort(items)))
    ensures Placed(rows, s, ordinals, Sort(items), PlacesOf(Sort(items)))
  {
    SortedItemsAreWellPlaced(rows, s, ordinals, items, places);
    var sorted := Sort(items);
    forall k | 0 <= k < |sorted|
      ensures sorted[k].rank.first >= 0 && sorted[k].rank == Single(sorted[k].rank.first)
      ensures TellsOf(rows, s, ordinals, sorted[k].rank.first, sorted[k].item)
    {
      assert WellPlaced(rows, s, ordinals, sorted[k]);
    }
    var ps := PlacesOf(sorted);
    forall j, k | 0 <= j < k < |ps|
      ensures ps[j] < ps[k]
    {
      assert sorted[j].rank != sorted[k].rank && Le(sorted[j].rank, sorted[k].rank);
    }
  }

  /** The places of the sorted items are the submitted rows, in file order. */
  lemma {:induction false} SortedPlacesAreTheSubmitted(rows: seq<Row>, s: Settings, p: Pairing, ordinals: map<nat, nat>,
                                                       items: seq<Keyed<Operation>>)
    requires Proper(rows, p) && Placed(rows, s, ordinals, items, Places(rows, s, p))
    requires forall k | 0 <= k < |Sort(items)| :: Sort(items)[k].rank.first >= 0
    requires Ascends(PlacesOf(Sort(items)))
    ensures PlacesOf(Sort(items)) == InFileOrder(SubmittedRows(rows, s, p), |rows|)
  {
    var submitted := InFileOrder(SubmittedRows(rows, s, p), |rows|);
    PlacesAreTheSubmittedRows(rows, s, p);
    FileOrderAscends(SubmittedRows(rows, s, p), |rows|);
    forall x: nat
      ensures x in PlacesOf(Sort(items)) <==> x in submitted
    {
      SortKeepsPlaces(rows, s, ordinals, items, Places(rows, s, p), x);
      FileOrderLists(SubmittedRows(rows, s, p), |rows|, x);
      if x in SubmittedRows(rows, s, p) {
        SubmittedIsInside(rows, s, p, x);
      }
    }
    AscendingIsUnique(PlacesOf(Sort(items)), submitted);
  }

  /** The places of a run's operations, in the order they are submitted. */
  lemma {:induction false} RunPlaces(rows: seq<Row>, s: Settings, tolerance: int)
    ensures var p := PairingOf(rows, tolerance);
            var sorted := Sort(RunBook(rows, s, tolerance).items);
            && Proper(rows, p)
            && (forall k | 0 <= k < |sorted| :: sorted[k].rank.first >= 0)
            && PlacesOf(sorted) == InFileOrder(SubmittedRows(rows, s, p), |rows|)
            && Ascends(PlacesOf(sorted))
            && Placed(rows, s, OrdinalsOf(rows, s, p), sorted, PlacesOf(sorted))
  {
    PairingIsProper(rows, tolerance);
    var p := PairingOf(rows, tolerance);
    var ordinals := OrdinalsOf(rows, s, p);
    var items := RunBook(rows, s, tolerance).items;
    PairsArePlaced(rows, s, ordinals, p.pairs);
    SinglesArePlaced(rows, s, ordinals, BookPairs(rows, s, ordinals, p.pairs), PairPlaces(rows, s, p.pairs), p.singles);
    PlacesAreTheSubmittedRows(rows, s, p);
    SortedItemsArePlaced(rows, s, ordinals, items, Places(rows, s, p));
    SortedPlacesAreTheSubmitted(rows, s, p, ordinals, items);
  }

  /** A run submits one operation for each row it submits, in the order of the
      file, and each tells of its own row under that row's key. */
  lemma {:induction false} RunFollowsTheFile(rows: seq<Row>, s: Settings, tolerance: int)
    ensures var p := PairingOf(rows, tolerance);
            && Proper(rows, p)
            && var submitted := InFileOrder(SubmittedRows(rows, s, p), |rows|);
            && |RunOperations(rows, s, tolerance)| == |submitted|
            && forall k | 0 <= k < |submitted| ::
                 TellsOf(rows, s, OrdinalsOf(rows, s, p), submitted[k], RunOperations(rows, s, tolerance)[k])
  {
    RunPlaces(rows, s, tolerance);
  }

  lemma {:induction false} SubmittedIsInside(rows: seq<Row>, s: Settings, p: Pairing, x: nat)
    requires InFile(rows, p) && x in SubmittedRows(rows, s, p)
    ensures x < |rows| && Inside(s, rows[x])
  {
    if x in PairSurvivors(rows, s, p.pairs) {
      SurvivorIsUsed(rows, s, p.pairs, x);
    } else {
      SubmittedSingleWhy(rows, s, p.singles, x);
    }
  }

  // ---- Keys ----------------------------------------------------------------------

  function ReportedSingles(rows: seq<Row>, s: Settings, singles: seq<nat>): (ps: seq<nat>)
    requires InFile(rows, Pairing([], singles))
    ensures AllBelow(ps, |rows|)
  {
    if singles == [] then []
    else
      var before, last := ReportedSingles(rows, s, singles[..|singles| - 1]), singles[|singles| - 1];
      if Inside(s, rows[last]) && IsInternalTransfer(rows[last]) then before + [last] else before
  }

  ghost predicate Reports(rows: seq<Row>, s: Settings, ordinals: map<nat, nat>, unmatched: seq<UnmatchedLeg>, places: seq<nat>)
    requires AllBelow(places, |rows|)
  {
    && |unmatched| == |places|
    && forall k | 0 <= k < |places| ::
         unmatched[k] == Unmatched(rows, places[k], KeyFor(rows, s, ordinals, places[k]))
  }

  lemma {:induction false} SinglesAreReported(rows: seq<Row>, s: Settings, ordinals: map<nat, nat>, book: Book, singles: seq<nat>)
    requires InFile(rows, Pairing([], singles)) && book.unmatched == []
    ensures Reports(rows, s, ordinals, BookSingles(rows, s, ordinals, book, singles).unmatched, ReportedSingles(rows, s, singles))
  {
    if singles != [] {
      SinglesAreReported(rows, s, ordinals, book, singles[..|singles| - 1]);
    }
  }

  lemma {:induction false} ReportedWhy(rows: seq<Row>, s: Settings, singles: seq<nat>, x: nat)
    requires InFile(rows, Pairing([], singles))
    ensures x in ReportedSingles(rows, s, singles)
       <==> x in singles && Inside(s, rows[x]) && IsInternalTransfer(rows[x])
    ensures Occurs(ReportedSingles(rows, s, singles), x) <= Occurs(singles, x)
  {
    if singles != [] {
      var init, last := singles[..|singles| - 1], singles[|singles| - 1];
      ReportedWhy(rows, s, init, x);
      assert singles == init + [last];
      OccursSnoc(ReportedSingles(rows, s, init), last, x);
    }
  }

  /** Every row that leaves a key in the output: the submitted rows, then the reported legs. */
  ghost function KeyedPlaces(rows: seq<Row>, s: Settings, p: Pairing): (ps: seq<nat>)
    requires InFile(rows, p)
    ensures AllBelow(ps, |rows|)
  {
    InFileOrder(SubmittedRows(rows, s, p), |rows|) + ReportedSingles(rows, s, p.singles)
  }

  lemma {:induction false} KeyedPlacesAreNumberedInside(rows: seq<Row>, s: Settings, p: Pairing, x: nat)
    requires Proper(rows, p)
    ensures x in KeyedPlaces(rows, s, p) <==> x in NumberedRows(rows, s, p) && x < |rows| && Inside(s, rows[x])
  {
    FileOrderLists(SubmittedRows(rows, s, p), |rows|, x);
    ReportedWhy(rows, s, p.singles, x);
    UnmatchedWhy(rows, s, p.singles, x);
    if x in SubmittedRows(rows, s, p) {
      SubmittedIsInside(rows, s, p, x);
    }
  }

  lemma {:induction false} KeyedPlacesDoNotRepeat(rows: seq<Row>, s: Settings, p: Pairing)
    requires Proper(rows, p)
    ensures NoRepeats(KeyedPlaces(rows, s, p))
  {
    var first, second := InFileOrder(SubmittedRows(rows, s, p), |rows|), ReportedSingles(rows, s, p.singles);
    FileOrderAscends(SubmittedRows(rows, s, p), |rows|);
    forall x: nat
      ensures Occurs(second, x) <= 1
    {
      ReportedWhy(rows, s, p.singles, x);
      assert Uses(p, x) <= 1;
    }
    OnceMeansDistinct(second);
    forall j, k | 0 <= j < |first| && 0 <= k < |second|
      ensures first[j] != second[k]
    {
      ReportedWhy(rows, s, p.singles, second[k]);
      var i :| 0 <= i < |p.singles| && p.singles[i] == second[k];
      UnmatchedIsNotSubmitted(rows, s, p, i);
      FileOrderLists(SubmittedRows(rows, s, p), |rows|, first[j]);
    }
  }

  function OperationKeys(operations: seq<Operation>): (keys: seq<string>) {
    seq(|operations|, k requires 0 <= k < |operations| => operations[k].key)
  }

  function UnmatchedKeys(unmatched: seq<UnmatchedLeg>): (keys: seq<string>) {
    seq(|unmatched|, k requires 0 <= k < |unmatched| => unmatched[k].key)
  }

  /** Every key a run prints. */
  ghost function RunKeys(rows: seq<Row>, s: Settings, tolerance: int): seq<string> {
    OperationKeys(RunOperations(rows, s, tolerance))
    + UnmatchedKeys(SummaryOf(RunBook(rows, s, tolerance)).unmatched)
  }

  ghost predicate KeyedBy(rows: seq<Row>, s: Settings, ordinals: map<nat, nat>, keys: seq<string>, places: seq<nat>)
    requires AllBelow(places, |rows|)
  {
    |keys| == |places| && forall k | 0 <= k < |places| :: keys[k] == KeyFor(rows, s, ordinals, places[k])
  }

  lemma {:induction false} KeyedByConcat(rows: seq<Row>, s: Settings, ordinals: map<nat, nat>, keys: seq<string>, places: seq<nat>, keys': seq<string>, places': seq<nat>)
    requires AllBelow(places, |rows|) && AllBelow(places', |rows|)
    requires KeyedBy(rows, s, ordinals, keys, places) && KeyedBy(rows, s, ordinals, keys', places')
    ensures AllBelow(places + places', |rows|) && KeyedBy(rows, s, ordinals, keys + keys', places + places')
  {
  }

  lemma {:induction false} OperationKeysAreKeysFor(rows: seq<Row>, s: Settings, tolerance: int)
    ensures var p := PairingOf(rows, tolerance);
            && Proper(rows, p)
            && KeyedBy(rows, s, OrdinalsOf(rows, s, p), OperationKeys(RunOperations(rows, s, tolerance)),
                       InFileOrder(SubmittedRows(rows, s, p), |rows|))
  {
    RunFollowsTheFile(rows, s, tolerance);
    var p := PairingOf(rows, tolerance);
    var submitted := InFileOrder(SubmittedRows(rows, s, p), |rows|);
    forall k | 0 <= k < |submitted|
      ensures OperationKeys(RunOperations(rows, s, tolerance))[k] == KeyFor(rows, s, OrdinalsOf(rows, s, p), submitted[k])
    {
      assert TellsOf(rows, s, OrdinalsOf(rows, s, p), submitted[k], RunOperations(rows, s, tolerance)[k]);
    }
  }

  lemma {:induction false} UnmatchedKeysAreKeysFor(rows: seq<Row>, s: Settings, tolerance: int)
    ensures var p := PairingOf(rows, tolerance);
            && Proper(rows, p)
            && KeyedBy(rows, s, OrdinalsOf(rows, s, p), UnmatchedKeys(RunBook(rows, s, tolerance).unmatched),
                       ReportedSingles(rows, s, p.singles))
  {
    PairingIsProper(rows, tolerance);
    var p := PairingOf(rows, tolerance);
    var ordinals := OrdinalsOf(rows, s, p);
    PairsReportNothing(rows, s, ordinals, p.pairs);
    SinglesAreReported(rows, s, ordinals, BookPairs(rows, s, ordinals, p.pairs), p.singles);
  }

  lemma {:induction false} RunKeysAreKeysFor(rows: seq<Row>, s: Settings, tolerance: int)
    ensures var p := PairingOf(rows, tolerance);
            && Proper(rows, p)
            && KeyedBy(rows, s, OrdinalsOf(rows, s, p), RunKeys(rows, s, tolerance), KeyedPlaces(rows, s, p))
  {
    OperationKeysAreKeysFor(rows, s, tolerance);
    UnmatchedKeysAreKeysFor(rows, s, tolerance);
    var p := PairingOf(rows, tolerance);
    KeyedByConcat(rows, s, OrdinalsOf(rows, s, p),
                  OperationKeys(RunOperations(rows, s, tolerance)), InFileOrder(SubmittedRows(rows, s, p), |rows|),
                  UnmatchedKeys(RunBook(rows, s, tolerance).unmatched), ReportedSingles(rows, s, p.singles));
  }

  ghost predicate AllDistinct(keys: seq<string>) {
    forall j, k | 0 <= j < k < |keys| :: keys[j] != keys[k]
  }

  /** The places of a list of keys are the keyed rows inside the contour, each once. */
  ghost predicate Covers(rows: seq<Row>, s: Settings, places: seq<nat>, order: seq<nat>) {
    && NoRepeats(places)
    && forall x: nat :: x in places <==> x in order && x < |rows| && Inside(s, rows[x])
  }

  /** Keys read at places are distinct exactly when the keys of those rows differ. */
  lemma {:induction false} DistinctIffKeysDiffer(rows: seq<Row>, s: Settings, order: seq<nat>, keys: seq<string>, places: seq<nat>)
    requires AllBelow(order, |rows|) && AllBelow(places, |rows|) && Covers(rows, s, places, order)
    requires KeyedBy(rows, s, Numbering(rows, s, order), keys, places)
    ensures AllDistinct(keys) <==> KeysDiffer(rows, s, order)
  {
    if KeysDiffer(rows, s, order) {
      forall j, k | 0 <= j < k < |keys|
        ensures keys[j] != keys[k]
      {
        assert places[j] in places && places[k] in places;
      }
    }
    if AllDistinct(keys) {
      forall x, y | x in order && y in order && x != y && x < |rows| && y < |rows| && Inside(s, rows[x]) && Inside(s, rows[y])
        ensures KeyFor(rows, s, Numbering(rows, s, order), x) != KeyFor(rows, s, Numbering(rows, s, order), y)
      {
        assert x in places && y in places;
        var j :| 0 <= j < |places| && places[j] == x;
        var k :| 0 <= k < |places| && places[k] == y;
        assert keys[if j < k then j else k] != keys[if j < k then k else j];
      }
    }
  }

  /** The keys a run prints are pairwise distinct exactly when, among the rows
      that carry one, equal raw lines of one account fall on one day. */
  lemma {:induction false} RunKeysAreDistinctIff(rows: seq<Row>, s: Settings, tolerance: int)
    requires HexDigests(s)
    ensures var p := PairingOf(rows, tolerance);
            && Proper(rows, p)
            && (AllDistinct(RunKeys(rows, s, tolerance)) <==> OneDayPerDigest(rows, s, NumberedRows(rows, s, p)))
  {
    PairingIsProper(rows, tolerance);
    var p := PairingOf(rows, tolerance);
    var keys, places, order := RunKeys(rows, s, tolerance), KeyedPlaces(rows, s, p), NumberedRows(rows, s, p);
    RunKeysAreKeysFor(rows, s, tolerance);
    KeyedPlacesDoNotRepeat(rows, s, p);
    NumberedOnce(rows, s, p);
    forall x: nat
      ensures x in places <==> x in order && x < |rows| && Inside(s, rows[x])
    {
      KeyedPlacesAreNumberedInside(rows, s, p, x);
    }
    DistinctIffKeysDiffer(rows, s, order, keys, places);
    if OneDayPerDigest(rows, s, order) {
      KeysDifferIfOneDay(rows, s, order);
    } else if KeysDiffer(rows, s, order) {
      OneDayIfKeysDiffer(rows, s, order);
    }
  }

  // ---- Dropped legs ----------------------------------------------------------------

  /** The operation a dropped leg was folded into: the transfer that carries its
      amount to its account. */
  predicate Folds(s: Settings, operation: Operation, leg: DroppedLeg) {
    && operation.key == leg.foldedInto
    && operation.flow == Transfer(Lookup(s.accounts, leg.account))
    && operation.amount == leg.amount
  }

  ghost predicate AllFolded(s: Settings, book: Book) {
    forall leg | leg in book.droppedLegs :: exists x | x in book.items :: Folds(s, x.item, leg)
  }

  lemma {:induction false} PairsFold(rows: seq<Row>, s: Settings, ordinals: map<nat, nat>, pairs: seq<(nat, nat)>, tolerance: int)
    requires InFile(rows, Pairing(pairs, []))
    requires forall k | 0 <= k < |pairs| :: IsTransfer(rows, pairs[k], tolerance)
    ensures AllFolded(s, BookPairs(rows, s, ordinals, pairs))
  {
    if pairs != [] {
      var init, last := pairs[..|pairs| - 1], pairs[|pairs| - 1];
      PairsFold(rows, s, ordinals, init, tolerance);
      var before, after := BookPairs(rows, s, ordinals, init), BookPairs(rows, s, ordinals, pairs);
      forall leg | leg in after.droppedLegs
        ensures exists x | x in after.items :: Folds(s, x.item, leg)
      {
        if leg in before.droppedLegs {
          var x :| x in before.items && Folds(s, x.item, leg);
          assert x in after.items;
        } else {
          var x := after.items[|after.items| - 1];
          assert Folds(s, x.item, leg);
        }
      }
    }
  }

  lemma {:induction false} SinglesKeepFolded(rows: seq<Row>, s: Settings, ordinals: map<nat, nat>, book: Book, singles: seq<nat>)
    requires InFile(rows, Pairing([], singles))
    ensures BookSingles(rows, s, ordinals, book, singles).droppedLegs == book.droppedLegs
    ensures forall x | x in book.items :: x in BookSingles(rows, s, ordinals, book, singles).items
  {
    if singles != [] {
      SinglesKeepFolded(rows, s, ordinals, book, singles[..|singles| - 1]);
    }
  }

  lemma {:induction false} EveryItemIsSubmitted(items: seq<Keyed<Operation>>, x: Keyed<Operation>)
    requires x in items
    ensures x.item in Items(Sort(items))
  {
    SortIsPermutation(items);
    assert x in multiset(Sort(items));
    var k :| 0 <= k < |Sort(items)| && Sort(items)[k] == x;
    assert Items(Sort(items))[k] == x.item;
  }

  /** Every dropped leg names, by key, a submitted transfer that carries its money. */
  lemma {:induction false} DroppedLegsAreFolded(rows: seq<Row>, s: Settings, tolerance: int, leg: DroppedLeg)
    requires leg in SummaryOf(RunBook(rows, s, tolerance)).droppedLegs
    ensures exists operation | operation in RunOperations(rows, s, tolerance) :: Folds(s, operation, leg)
  {
    PairingIsProper(rows, tolerance);
    PairingIsSound(rows, tolerance);
    var p := PairingOf(rows, tolerance);
    var ordinals := OrdinalsOf(rows, s, p);
    var book := BookPairs(rows, s, ordinals, p.pairs);
    PairsFold(rows, s, ordinals, p.pairs, tolerance);
    SinglesKeepFolded(rows, s, ordinals, book, p.singles);
    var x :| x in book.items && Folds(s, x.item, leg);
    EveryItemIsSubmitted(RunBook(rows, s, tolerance).items, x);
  }

  // ---- The per-account summary -------------------------------------------------------

  /** What `account_summary` adds to an account's net for one operation: only the
      side the operation is filed on. */
  function NetOn(account: string): Operation -> int {
    (operation: Operation) =>
      if operation.account != account then 0
      else if operation.flow.Withdrawal? || operation.flow.Transfer? then -operation.amount
      else operation.amount
  }

  predicate Receives(operation: Operation, account: string) {
    operation.flow.Transfer? && operation.flow.to == account && operation.amount != 0
  }

  lemma {:induction false} NetIsMovementLessReceipts(operations: seq<Operation>, account: string)
    requires forall operation | operation in operations :: operation.amount >= 0
    ensures SumOf(operations, NetOn(account)) <= SumOf(operations, EffectOn(account))
    ensures SumOf(operations, NetOn(account)) == SumOf(operations, EffectOn(account))
       <==> forall operation | operation in operations :: !Receives(operation, account)
  {
    if operations != [] {
      var init, last := operations[..|operations| - 1], operations[|operations| - 1];
      NetIsMovementLessReceipts(init, account);
      assert operations == init + [last];
      assert last in operations;
      if Receives(last, account) {
        assert NetOn(account)(last) < EffectOn(account)(last);
      } else {
        assert NetOn(account)(last) == EffectOn(account)(last);
      }
    }
  }

  /** The summary's `net` is the account's movement exactly when no submitted
      transfer brings money into the account; otherwise it understates it. */
  lemma {:induction false} SummaryNetIsMovementIff(rows: seq<Row>, s: Settings, tolerance: int, account: string)
    ensures var operations := RunOperations(rows, s, tolerance);
            && SumOf(operations, NetOn(account)) <= SumOf(operations, EffectOn(account))
            && (SumOf(operations, NetOn(account)) == SumOf(operations, EffectOn(account))
                <==> forall operation | operation in operations :: !Receives(operation, account))
  {
    RunFollowsTheFile(rows, s, tolerance);
    NetIsMovementLessReceipts(RunOperations(rows, s, tolerance), account);
  }
}
