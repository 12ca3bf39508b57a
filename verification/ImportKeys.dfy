/** The parts of an idempotency key: ordinals that number a group's rows densely, and
    a printed form that gives account, digest and ordinal back. */
module ImportKeys {
  import opened Texts
  import opened ExportRows
  import opened TransferPairing
  import opened PairingLaws
  import opened PairingQuality
  import opened ImportBuild
  import opened ImportRun

  // ---- Ordinals ------------------------------------------------------------

  ghost predicate NoRepeats(order: seq<nat>) {
    forall j, k | 0 <= j < k < |order| :: order[j] != order[k]
  }

  lemma {:induction false} TallyCounts(rows: seq<Row>, s: Settings, order: seq<nat>, g: Group)
    requires AllBelow(order, |rows|)
    ensures Reading(Tally(rows, s, order), g) == CountOf(rows, s, order, g)
  {
    if order != [] {
      TallyCounts(rows, s, order[..|order| - 1], g);
    }
  }

  /** A row's ordinal is its place, counting from one, among the rows of its
      account, day and digest. */
  lemma {:induction false} OrdinalIsPlaceInGroup(rows: seq<Row>, s: Settings, order: seq<nat>, k: nat)
    requires AllBelow(order, |rows|) && NoRepeats(order) && k < |order|
    ensures order[k] in Numbering(rows, s, order)
    ensures Numbering(rows, s, order)[order[k]] == CountOf(rows, s, order[..k + 1], GroupOf(s, rows[order[k]]))
  {
    var last := |order| - 1;
    if k == last {
      assert order[..k + 1] == order;
      TallyCounts(rows, s, order, GroupOf(s, rows[order[k]]));
    } else {
      OrdinalIsPlaceInGroup(rows, s, order[..last], k);
      assert order[..last][..k + 1] == order[..k + 1];
    }
  }

  lemma {:induction false} CountGrows(rows: seq<Row>, s: Settings, order: seq<nat>, j: nat, k: nat, g: Group)
    requires AllBelow(order, |rows|) && j <= k <= |order|
    ensures CountOf(rows, s, order[..j], g) <= CountOf(rows, s, order[..k], g)
    decreases k
  {
    if j < k {
      CountGrows(rows, s, order, j, k - 1, g);
      assert order[..k][..k - 1] == order[..k - 1];
    }
  }

  lemma {:induction false} CountStep(rows: seq<Row>, s: Settings, order: seq<nat>, k: nat, g: Group)
    requires AllBelow(order, |rows|) && k < |order|
    ensures CountOf(rows, s, order[..k + 1], g)
         == CountOf(rows, s, order[..k], g) + if GroupOf(s, rows[order[k]]) == g then 1 else 0
  {
    assert order[..k + 1][..k] == order[..k];
  }

  /** Two rows of one group never share an ordinal. */
  lemma {:induction false} OrdinalsDiffer(rows: seq<Row>, s: Settings, order: seq<nat>, j: nat, k: nat)
    requires AllBelow(order, |rows|) && NoRepeats(order) && j < k < |order|
    requires GroupOf(s, rows[order[j]]) == GroupOf(s, rows[order[k]])
    ensures order[j] in Numbering(rows, s, order) && order[k] in Numbering(rows, s, order)
    ensures Numbering(rows, s, order)[order[j]] < Numbering(rows, s, order)[order[k]]
  {
    var g := GroupOf(s, rows[order[k]]);
    OrdinalIsPlaceInGroup(rows, s, order, j);
    OrdinalIsPlaceInGroup(rows, s, order, k);
    CountGrows(rows, s, order, j + 1, k, g);
    CountStep(rows, s, order, k, g);
  }

  /** None is skipped: a group of n rows uses every ordinal from 1 to n. */
  lemma {:induction false} OrdinalsAreDense(rows: seq<Row>, s: Settings, order: seq<nat>, g: Group, ordinal: nat, n: nat)
    returns (k: nat)
    requires AllBelow(order, |rows|) && NoRepeats(order) && n <= |order|
    requires 1 <= ordinal <= CountOf(rows, s, order[..n], g)
    ensures k < n && GroupOf(s, rows[order[k]]) == g
    ensures order[k] in Numbering(rows, s, order) && Numbering(rows, s, order)[order[k]] == ordinal
  {
    CountStep(rows, s, order, n - 1, g);
    if ordinal <= CountOf(rows, s, order[..n - 1], g) {
      k := OrdinalsAreDense(rows, s, order, g, ordinal, n - 1);
    } else {
      k := n - 1;
      OrdinalIsPlaceInGroup(rows, s, order, k);
    }
  }

  // ---- Which rows are numbered -----------------------------------------------

  lemma {:induction false} FileOrderAscends(chosen: set<nat>, n: nat)
    ensures forall j, k | 0 <= j < k < |InFileOrder(chosen, n)| :: InFileOrder(chosen, n)[j] < InFileOrder(chosen, n)[k]
  {
    if n > 0 {
      FileOrderAscends(chosen, n - 1);
    }
  }

  lemma {:induction false} UnmatchedOccur(rows: seq<Row>, s: Settings, singles: seq<nat>, x: nat)
    requires InFile(rows, Pairing([], singles))
    ensures Occurs(UnmatchedAmong(rows, s, singles), x) <= Occurs(singles, x)
  {
    if singles != [] {
      var init := singles[..|singles| - 1];
      UnmatchedOccur(rows, s, init, x);
      OccursSnoc(UnmatchedAmong(rows, s, init), singles[|singles| - 1], x);
    }
  }

  /** No row is numbered twice. */
  lemma {:induction false} NumberedOnce(rows: seq<Row>, s: Settings, p: Pairing)
    requires Proper(rows, p)
    ensures NoRepeats(NumberedRows(rows, s, p))
  {
    var first := InFileOrder(SubmittedRows(rows, s, p), |rows|);
    var second := UnmatchedAmong(rows, s, p.singles);
    FileOrderAscends(SubmittedRows(rows, s, p), |rows|);
    forall x: nat
      ensures Occurs(second, x) <= 1
    {
      UnmatchedOccur(rows, s, p.singles, x);
      assert Uses(p, x) <= 1;
    }
    OnceMeansDistinct(second);
    forall j, k | 0 <= j < |first| && 0 <= k < |second|
      ensures first[j] != second[k]
    {
      UnmatchedWhy(rows, s, p.singles, second[k]);
      var i :| 0 <= i < |p.singles| && p.singles[i] == second[k];
      UnmatchedIsNotSubmitted(rows, s, p, i);
      FileOrderLists(SubmittedRows(rows, s, p), |rows|, first[j]);
    }
  }

  // ---- Keys ------------------------------------------------------------------

  function IsSlash(): char -> bool {
    c => c == '/'
  }

  lemma {:induction false} NumeralHasNoSlash(n: nat)
    ensures Lacks(Decimal(n), IsSlash())
  {
    assert IsNumeral(Decimal(n));
  }

  /** Within one channel a key names one account, one digest and one ordinal. */
  lemma {:induction false} RowKeyIsInjective(a: string, b: string, channel: string, d: string, e: string, m: nat, n: nat)
    requires Lacks(d, IsSlash()) && Lacks(e, IsSlash())
    requires RowKey(a, channel, d, m) == RowKey(b, channel, e, n)
    ensures a == b && d == e && m == n
  {
    NumeralHasNoSlash(m);
    NumeralHasNoSlash(n);
    LastSeparatorIsUnique(a + ['/'] + channel + ['/'] + d, Decimal(m), b + ['/'] + channel + ['/'] + e, Decimal(n), '/', IsSlash());
    DecimalIsInjective(m, n);
    LastSeparatorIsUnique(a + ['/'] + channel, d, b + ['/'] + channel, e, '/', IsSlash());
    assert (a + ['/'] + channel)[..|a|] == a && (b + ['/'] + channel)[..|b|] == b;
  }

  /** A key splits back into its digest and its ordinal, whatever slashes the
      account or the channel hold. */
  lemma {:induction false} RowKeySplits(account: string, channel: string, digest: string, ordinal: nat)
    requires Lacks(digest, IsSlash())
    ensures var parts := Split(RowKey(account, channel, digest, ordinal), IsSlash());
            && |parts| >= 3
            && parts[|parts| - 2] == digest
            && parts[|parts| - 1] == Decimal(ordinal) && ValueOf(parts[|parts| - 1]) == ordinal
  {
    NumeralHasNoSlash(ordinal);
    DecimalReadsBack(ordinal);
    SplitAtLast(account + ['/'] + channel, '/', digest, IsSlash());
    SplitAtLast(account + ['/'] + channel + ['/'] + digest, '/', Decimal(ordinal), IsSlash());
  }

  ghost predicate HexDigests(s: Settings) {
    forall line :: Lacks(s.digest(line), IsSlash())
  }

  /** Among the rows that carry a key, one account's equal raw lines fall on one day. */
  ghost predicate OneDayPerDigest(rows: seq<Row>, s: Settings, order: seq<nat>)
    requires AllBelow(order, |rows|)
  {
    forall j, k | 0 <= j < |order| && 0 <= k < |order| :: SameDay(s, rows[order[j]], rows[order[k]])
  }

  predicate SameDay(s: Settings, a: Row, b: Row) {
    Inside(s, a) && IdOf(s, a) == IdOf(s, b) && s.digest(a.raw) == s.digest(b.raw) ==> DayOf(a) == DayOf(b)
  }

  /** Different keyed rows inside the contour carry different keys. */
  ghost predicate KeysDiffer(rows: seq<Row>, s: Settings, order: seq<nat>)
    requires AllBelow(order, |rows|)
  {
    forall x, y | x in order && y in order && x != y && x < |rows| && y < |rows| && Inside(s, rows[x]) && Inside(s, rows[y]) ::
      KeyFor(rows, s, Numbering(rows, s, order), x) != KeyFor(rows, s, Numbering(rows, s, order), y)
  }

  lemma {:induction false} KeysDifferPairwise(rows: seq<Row>, s: Settings, order: seq<nat>, j: nat, k: nat)
    requires AllBelow(order, |rows|) && NoRepeats(order) && HexDigests(s) && j < k < |order|
    requires Inside(s, rows[order[j]]) && SameDay(s, rows[order[j]], rows[order[k]])
    ensures KeyFor(rows, s, Numbering(rows, s, order), order[j]) != KeyFor(rows, s, Numbering(rows, s, order), order[k])
  {
    var ordinals, a, b := Numbering(rows, s, order), rows[order[j]], rows[order[k]];
    OrdinalIsPlaceInGroup(rows, s, order, j);
    OrdinalIsPlaceInGroup(rows, s, order, k);
    if GroupOf(s, a) == GroupOf(s, b) {
      OrdinalsDiffer(rows, s, order, j, k);
    }
    if KeyFor(rows, s, ordinals, order[j]) == KeyFor(rows, s, ordinals, order[k]) {
      RowKeyIsInjective(IdOf(s, a), IdOf(s, b), s.channel, s.digest(a.raw), s.digest(b.raw), ordinals[order[j]], ordinals[order[k]]);
      assert false;
    }
  }

  lemma {:induction false} KeysDifferIfOneDay(rows: seq<Row>, s: Settings, order: seq<nat>)
    requires AllBelow(order, |rows|) && NoRepeats(order) && HexDigests(s) && OneDayPerDigest(rows, s, order)
    ensures KeysDiffer(rows, s, order)
  {
    var ordinals := Numbering(rows, s, order);
    forall x, y | x in order && y in order && x != y && x < |rows| && y < |rows| && Inside(s, rows[x]) && Inside(s, rows[y])
      ensures KeyFor(rows, s, ordinals, x) != KeyFor(rows, s, ordinals, y)
    {
      var j :| 0 <= j < |order| && order[j] == x;
      var k :| 0 <= k < |order| && order[k] == y;
      assert SameDay(s, rows[order[j]], rows[order[k]]) && SameDay(s, rows[order[k]], rows[order[j]]);
      if j < k {
        KeysDifferPairwise(rows, s, order, j, k);
      } else {
        KeysDifferPairwise(rows, s, order, k, j);
      }
    }
  }

  lemma {:induction false} FirstOfGroup(rows: seq<Row>, s: Settings, order: seq<nat>, j: nat) returns (k: nat)
    requires AllBelow(order, |rows|) && NoRepeats(order) && j < |order|
    ensures k < |order| && GroupOf(s, rows[order[k]]) == GroupOf(s, rows[order[j]])
    ensures order[k] in Numbering(rows, s, order) && Numbering(rows, s, order)[order[k]] == 1
  {
    var g := GroupOf(s, rows[order[j]]);
    CountStep(rows, s, order, j, g);
    k := OrdinalsAreDense(rows, s, order, g, 1, j + 1);
  }

  lemma {:induction false} OneDayIfKeysDiffer(rows: seq<Row>, s: Settings, order: seq<nat>)
    requires AllBelow(order, |rows|) && NoRepeats(order) && KeysDiffer(rows, s, order)
    ensures OneDayPerDigest(rows, s, order)
  {
    forall j, k | 0 <= j < |order| && 0 <= k < |order|
      ensures SameDay(s, rows[order[j]], rows[order[k]])
    {
      if !SameDay(s, rows[order[j]], rows[order[k]]) {
        var j1 := FirstOfGroup(rows, s, order, j);
        var k1 := FirstOfGroup(rows, s, order, k);
        assert false;
      }
    }
  }
}
