/** Files on which a key is printed twice, and files on which the summary's net
    falls short of what an account moved. */
module ImportLimits {
  import opened Sums
  import opened ExportRows
  import opened TransferPairing
  import opened PairingLaws
  import opened PairingQuality
  import opened ImportBuild
  import opened ImportRun
  import opened ImportConservation
  import opened ImportKeys
  import opened ImportOutput

  // ---- A repeated key -------------------------------------------------------------------

  lemma {:induction false} SelectLists(rows: seq<Row>, kind: Kind, n: nat, x: nat)
    requires x < n <= |rows| && KindOf(rows[x]) == kind
    ensures x in Select(rows, kind, n)
  {
    if x < n - 1 {
      SelectLists(rows, kind, n - 1, x);
    }
  }

  /** An ordinary row inside the contour is submitted, so it carries a key. */
  lemma {:induction false} OrdinaryRowIsNumbered(rows: seq<Row>, s: Settings, tolerance: int, x: nat)
    requires x < |rows| && IsSubmittedSingle(s, rows[x])
    ensures Proper(rows, PairingOf(rows, tolerance)) && x in NumberedRows(rows, s, PairingOf(rows, tolerance))
  {
    PairingIsProper(rows, tolerance);
    var p := PairingOf(rows, tolerance);
    SelectLists(rows, Ordinary, |rows|, x);
    assert x in p.singles;
    SubmittedSingleWhy(rows, s, p.singles, x);
    FileOrderLists(SubmittedRows(rows, s, p), |rows|, x);
  }

  /** Two ordinary rows of one account whose raw lines are one text and whose days are
      two make a run print some key twice, whatever else the file holds. */
  lemma {:induction false} SharedLineRepeatsAKey(rows: seq<Row>, s: Settings, tolerance: int, i: nat, j: nat)
    requires HexDigests(s) && i < |rows| && j < |rows|
    requires IsSubmittedSingle(s, rows[i]) && IsSubmittedSingle(s, rows[j])
    requires rows[i].account == rows[j].account && rows[i].raw == rows[j].raw && DayOf(rows[i]) != DayOf(rows[j])
    ensures !AllDistinct(RunKeys(rows, s, tolerance))
  {
    OrdinaryRowIsNumbered(rows, s, tolerance, i);
    OrdinaryRowIsNumbered(rows, s, tolerance, j);
    RunKeysAreDistinctIff(rows, s, tolerance);
    var order := NumberedRows(rows, s, PairingOf(rows, tolerance));
    var a :| 0 <= a < |order| && order[a] == i;
    var b :| 0 <= b < |order| && order[b] == j;
    assert !SameDay(s, rows[order[a]], rows[order[b]]);
  }

  lemma {:induction false} TwoRowsShareALine(early: Row, late: Row, s: Settings, tolerance: int)
    requires HexDigests(s) && IsSubmittedSingle(s, early) && IsSubmittedSingle(s, late)
    requires early.account == late.account && early.raw == late.raw && DayOf(early) != DayOf(late)
    ensures !AllDistinct(RunKeys([early, late], s, tolerance))
  {
    SharedLineRepeatsAKey([early, late], s, tolerance, 0, 1);
  }

  /** An ordinary row that says nothing but its account, its moment and its line. */
  function BareRow(account: string, moment: int, raw: string): Row {
    Row(account, moment, -1, "", "", "", "", raw)
  }

  lemma {:induction false} BareRowIsSubmitted(s: Settings, account: string, moment: int, raw: string)
    requires Lookup(s.accounts, account) != ""
    ensures IsSubmittedSingle(s, BareRow(account, moment, raw))
  {
    assert |INTERNAL_TRANSFER| > 0;
  }

  lemma {:induction false} DaysDiffer(account: string, raw: string)
    ensures DayOf(BareRow(account, 0, raw)) != DayOf(BareRow(account, SECONDS_IN_A_DAY, raw))
  {
  }

  /** There is such a file for every digest and every account inside the contour: two
      lines that read alike under two days. */
  lemma {:induction false} SharedLineFileExists(s: Settings, account: string, raw: string, tolerance: int) returns (rows: seq<Row>)
    requires HexDigests(s) && Lookup(s.accounts, account) != ""
    ensures |rows| == 2 && forall i | 0 <= i < |rows| :: rows[i].account == account && rows[i].raw == raw
    ensures !AllDistinct(RunKeys(rows, s, tolerance))
  {
    var early, late := BareRow(account, 0, raw), BareRow(account, SECONDS_IN_A_DAY, raw);
    BareRowIsSubmitted(s, account, 0, raw);
    BareRowIsSubmitted(s, account, SECONDS_IN_A_DAY, raw);
    DaysDiffer(account, raw);
    TwoRowsShareALine(early, late, s, tolerance);
    rows := [early, late];
  }

  // ---- A net that falls short ---------------------------------------------------------------

  /** A pair inside the contour drops its incoming leg. */
  lemma {:induction false} PairDropsALeg(rows: seq<Row>, s: Settings, ordinals: map<nat, nat>, pairs: seq<(nat, nat)>, k: nat)
    returns (leg: DroppedLeg)
    requires InFile(rows, Pairing(pairs, [])) && k < |pairs|
    requires Inside(s, rows[pairs[k].0]) && Inside(s, rows[pairs[k].1])
    ensures leg in BookPairs(rows, s, ordinals, pairs).droppedLegs
    ensures leg.account == rows[pairs[k].1].account && leg.amount == rows[pairs[k].1].amount
  {
    if k < |pairs| - 1 {
      leg := PairDropsALeg(rows, s, ordinals, pairs[..|pairs| - 1], k);
    } else {
      leg := Dropped(rows, pairs[k].1, KeyFor(rows, s, ordinals, pairs[k].0));
    }
  }

  /** Every pair inside the contour puts the receiver's net below its movement. */
  lemma {:induction false} PairedTransferLowersNet(rows: seq<Row>, s: Settings, tolerance: int, k: nat)
    requires k < |PairingOf(rows, tolerance).pairs|
    requires var pair := PairingOf(rows, tolerance).pairs[k];
      pair.0 < |rows| && pair.1 < |rows| && Inside(s, rows[pair.0]) && Inside(s, rows[pair.1])
    ensures var account := IdOf(s, rows[PairingOf(rows, tolerance).pairs[k].1]);
      SumOf(RunOperations(rows, s, tolerance), NetOn(account)) < SumOf(RunOperations(rows, s, tolerance), EffectOn(account))
  {
    PairingIsProper(rows, tolerance);
    PairingIsSound(rows, tolerance);
    var p := PairingOf(rows, tolerance);
    var ordinals := OrdinalsOf(rows, s, p);
    var account := IdOf(s, rows[p.pairs[k].1]);
    assert p.pairs[k] in p.pairs;
    var leg := PairDropsALeg(rows, s, ordinals, p.pairs, k);
    SinglesKeepFolded(rows, s, ordinals, BookPairs(rows, s, ordinals, p.pairs), p.singles);
    DroppedLegsAreFolded(rows, s, tolerance, leg);
    var operation :| operation in RunOperations(rows, s, tolerance) && Folds(s, operation, leg);
    assert Receives(operation, account);
    SummaryNetIsMovementIff(rows, s, tolerance, account);
  }

  /** Two rows that can be joined are joined. */
  lemma {:induction false} TwoLegsArePaired(out: Row, inn: Row, tolerance: int)
    requires IsTransfer([out, inn], (0, 1), tolerance)
    ensures PairingOf([out, inn], tolerance).pairs != [] && PairingOf([out, inn], tolerance).pairs[0] == (0, 1)
  {
    var rows := [out, inn];
    var p := PairingOf(rows, tolerance);
    if p.pairs == [] {
      MemberOfSingles(rows, tolerance, 0);
      MemberOfSingles(rows, tolerance, 1);
      PairingIsMaximal(rows, tolerance, 0, 1);
      assert false;
    }
    PairingIsSound(rows, tolerance);
    assert p.pairs[0] in p.pairs;
  }

  /** A file of one transfer between two accounts inside the contour: the receiver's net
      is below its movement. */
  lemma {:induction false} OneTransferLowersNet(out: Row, inn: Row, s: Settings, tolerance: int)
    requires IsTransfer([out, inn], (0, 1), tolerance) && Inside(s, out) && Inside(s, inn)
    ensures var operations := RunOperations([out, inn], s, tolerance);
      SumOf(operations, NetOn(IdOf(s, inn))) < SumOf(operations, EffectOn(IdOf(s, inn)))
  {
    TwoLegsArePaired(out, inn, tolerance);
    PairedTransferLowersNet([out, inn], s, tolerance, 0);
  }
}
