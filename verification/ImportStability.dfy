/** Keys across runs: what a row's key owes to the rest of the file and to the tolerance. */
module ImportStability {
  import opened ExportRows
  import opened TransferPairing
  import opened ImportBuild
  import opened ImportRun
  import opened ImportKeys

  /** The keys of the numbered rows of one account, day and digest. */
  ghost function GroupKeys(rows: seq<Row>, s: Settings, order: seq<nat>, g: Group): set<string>
    requires AllBelow(order, |rows|)
  {
    set k | 0 <= k < |order| && GroupOf(s, rows[order[k]]) == g :: KeyFor(rows, s, Numbering(rows, s, order), order[k])
  }

  /** The first `n` keys a group can have. */
  ghost function FirstKeys(s: Settings, g: Group, n: nat): set<string> {
    set ordinal: nat | 1 <= ordinal <= n :: RowKey(g.account, s.channel, g.digest, ordinal)
  }

  lemma {:induction false} OrdinalIsInRange(rows: seq<Row>, s: Settings, order: seq<nat>, k: nat)
    requires AllBelow(order, |rows|) && NoRepeats(order) && k < |order|
    ensures order[k] in Numbering(rows, s, order)
    ensures 1 <= Numbering(rows, s, order)[order[k]] <= CountOf(rows, s, order, GroupOf(s, rows[order[k]]))
  {
    var g := GroupOf(s, rows[order[k]]);
    OrdinalIsPlaceInGroup(rows, s, order, k);
    CountStep(rows, s, order, k, g);
    CountGrows(rows, s, order, k + 1, |order|, g);
    assert order[..|order|] == order;
  }

  lemma {:induction false} KeyOfMember(rows: seq<Row>, s: Settings, order: seq<nat>, k: nat)
    requires AllBelow(order, |rows|) && NoRepeats(order) && k < |order|
    ensures var g := GroupOf(s, rows[order[k]]);
      KeyFor(rows, s, Numbering(rows, s, order), order[k]) in FirstKeys(s, g, CountOf(rows, s, order, g))
  {
    OrdinalIsInRange(rows, s, order, k);
    var ordinal := Numbering(rows, s, order)[order[k]];
    var g := GroupOf(s, rows[order[k]]);
    assert KeyFor(rows, s, Numbering(rows, s, order), order[k]) == RowKey(g.account, s.channel, g.digest, ordinal);
  }

  lemma {:induction false} KeyIsTaken(rows: seq<Row>, s: Settings, order: seq<nat>, g: Group, ordinal: nat)
    requires AllBelow(order, |rows|) && NoRepeats(order) && 1 <= ordinal <= CountOf(rows, s, order, g)
    ensures RowKey(g.account, s.channel, g.digest, ordinal) in GroupKeys(rows, s, order, g)
  {
    assert order[..|order|] == order;
    var k := OrdinalsAreDense(rows, s, order, g, ordinal, |order|);
    assert KeyFor(rows, s, Numbering(rows, s, order), order[k]) == RowKey(g.account, s.channel, g.digest, ordinal);
  }

  /** A group of n numbered rows has exactly its first n keys, whichever rows of the
      file come before, after or between them. */
  lemma {:induction false} GroupHasItsFirstKeys(rows: seq<Row>, s: Settings, order: seq<nat>, g: Group)
    requires AllBelow(order, |rows|) && NoRepeats(order)
    ensures GroupKeys(rows, s, order, g) == FirstKeys(s, g, CountOf(rows, s, order, g))
  {
    forall key | key in GroupKeys(rows, s, order, g)
      ensures key in FirstKeys(s, g, CountOf(rows, s, order, g))
    {
      var k :| 0 <= k < |order| && GroupOf(s, rows[order[k]]) == g && KeyFor(rows, s, Numbering(rows, s, order), order[k]) == key;
      KeyOfMember(rows, s, order, k);
    }
    forall key | key in FirstKeys(s, g, CountOf(rows, s, order, g))
      ensures key in GroupKeys(rows, s, order, g)
    {
      var ordinal: nat :| 1 <= ordinal <= CountOf(rows, s, order, g) && RowKey(g.account, s.channel, g.digest, ordinal) == key;
      KeyIsTaken(rows, s, order, g, ordinal);
    }
  }

  // ---- Two runs -------------------------------------------------------------------------

  /** The rows a run numbers, in the order it numbers them. */
  ghost function NumberedBy(rows: seq<Row>, s: Settings, tolerance: int): (order: seq<nat>)
    ensures AllBelow(order, |rows|) && NoRepeats(order)
  {
    PairingIsProper(rows, tolerance);
    NumberedOnce(rows, s, PairingOf(rows, tolerance));
    NumberedRows(rows, s, PairingOf(rows, tolerance))
  }

  /** How many rows of a group a run numbers. */
  ghost function GroupSize(rows: seq<Row>, s: Settings, tolerance: int, g: Group): nat {
    CountOf(rows, s, NumberedBy(rows, s, tolerance), g)
  }

  ghost function RunGroupKeys(rows: seq<Row>, s: Settings, tolerance: int, g: Group): set<string> {
    GroupKeys(rows, s, NumberedBy(rows, s, tolerance), g)
  }

  /** Across any two runs on a channel, whatever else their files hold and whatever
      their tolerances, the keys of a group depend on its size alone: of two runs the
      one that numbers fewer rows of it uses a part of the other's keys, and runs that
      number as many use the same keys. */
  lemma {:induction false} GroupKeysAreStable(rows: seq<Row>, tolerance: int, rows': seq<Row>, tolerance': int, s: Settings, g: Group)
    ensures GroupSize(rows, s, tolerance, g) <= GroupSize(rows', s, tolerance', g) ==>
              RunGroupKeys(rows, s, tolerance, g) <= RunGroupKeys(rows', s, tolerance', g)
    ensures GroupSize(rows, s, tolerance, g) == GroupSize(rows', s, tolerance', g) ==>
              RunGroupKeys(rows, s, tolerance, g) == RunGroupKeys(rows', s, tolerance', g)
  {
    GroupHasItsFirstKeys(rows, s, NumberedBy(rows, s, tolerance), g);
    GroupHasItsFirstKeys(rows', s, NumberedBy(rows', s, tolerance'), g);
    FewerKeys(s, g, GroupSize(rows, s, tolerance, g), GroupSize(rows', s, tolerance', g));
  }

  lemma {:induction false} FewerKeys(s: Settings, g: Group, m: nat, n: nat)
    ensures m <= n ==> FirstKeys(s, g, m) <= FirstKeys(s, g, n)
  {
  }

  /** No other row of the file is of the row's account, day and digest. */
  ghost predicate IsUnique(rows: seq<Row>, s: Settings, i: nat) {
    i < |rows| && forall j | 0 <= j < |rows| && j != i :: GroupOf(s, rows[j]) != GroupOf(s, rows[i])
  }

  lemma {:induction false} UniqueCount(rows: seq<Row>, s: Settings, order: seq<nat>, i: nat)
    requires AllBelow(order, |rows|) && NoRepeats(order) && IsUnique(rows, s, i)
    ensures CountOf(rows, s, order, GroupOf(s, rows[i])) == if i in order then 1 else 0
  {
    if order != [] {
      var init, last := order[..|order| - 1], order[|order| - 1];
      assert order == init + [last];
      UniqueCount(rows, s, init, i);
    }
  }

  /** A numbered row that is unique has ordinal 1. */
  lemma {:induction false} UniqueKeyIn(rows: seq<Row>, s: Settings, order: seq<nat>, i: nat)
    requires AllBelow(order, |rows|) && NoRepeats(order) && IsUnique(rows, s, i) && i in order
    ensures KeyFor(rows, s, Numbering(rows, s, order), i) == RowKey(IdOf(s, rows[i]), s.channel, s.digest(rows[i].raw), 1)
  {
    var k :| 0 <= k < |order| && order[k] == i;
    OrdinalIsInRange(rows, s, order, k);
    UniqueCount(rows, s, order, i);
  }

  /** A row that is unique in two exports keeps its key from one run to the other: an
      export of more rows and a wider tolerance change nothing of it. */
  lemma {:induction false} UniqueRowKeepsItsKey(rows: seq<Row>, tolerance: int, i: nat,
                                                rows': seq<Row>, tolerance': int, i': nat, s: Settings)
    requires IsUnique(rows, s, i) && i in NumberedBy(rows, s, tolerance)
    requires IsUnique(rows', s, i') && i' in NumberedBy(rows', s, tolerance')
    requires rows[i] == rows'[i']
    ensures KeyFor(rows, s, Numbering(rows, s, NumberedBy(rows, s, tolerance)), i)
         == KeyFor(rows', s, Numbering(rows', s, NumberedBy(rows', s, tolerance')), i')
  {
    UniqueKeyIn(rows, s, NumberedBy(rows, s, tolerance), i);
    UniqueKeyIn(rows', s, NumberedBy(rows', s, tolerance'), i');
  }
}
