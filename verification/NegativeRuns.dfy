/** One account and currency's cash legs in replay order, and the stretches over
    which their running balance is negative. */
module NegativeRuns {
  import opened Outcomes
  import opened Money

  /** One cash leg of the journal, dated by its event. */
  datatype Entry = Entry(key: Key, amount: PostedMinor, date: int)

  /** The balance once the first `n` legs are posted. */
  function BalanceAt(own: seq<Entry>, n: nat): int
    requires n <= |own|
  {
    if n == 0 then 0 else BalanceAt(own, n - 1) + own[n - 1].amount
  }

  function Balance(own: seq<Entry>): int {
    BalanceAt(own, |own|)
  }

  /** Whether the balance is negative once leg `m` is posted. */
  predicate NegativeAfter(own: seq<Entry>, m: nat)
    requires m < |own|
  {
    BalanceAt(own, m + 1) < 0
  }

  /** A stretch of negative balance: the leg that opened it and the leg that
      closed it, by position and by date. */
  datatype Run = Run(start: nat, end: Option<nat>, from: int, resolved: Option<int>)

  datatype Scan = Scan(balance: int, open: Option<(nat, int)>, closed: seq<Run>)

  /** The state after a list of legs: a run opens when the balance turns negative
      and closes when it is negative no longer. */
  function ScanOf(own: seq<Entry>): Scan {
    if own == [] then Scan(0, None, [])
    else
      var n := |own| - 1;
      Step(ScanOf(own[..n]), own[n], n)
  }

  function Step(before: Scan, leg: Entry, n: nat): Scan {
    var balance := before.balance + leg.amount;
    if balance < 0 && before.open.None? then Scan(balance, Some((n, leg.date)), before.closed)
    else if balance >= 0 && before.open.Some? then
      var (start, from) := before.open.value;
      Scan(balance, None, before.closed + [Run(start, Some(n), from, Some(leg.date))])
    else before.(balance := balance)
  }

  lemma {:induction false} ScanSnoc(own: seq<Entry>, leg: Entry)
    ensures ScanOf(own + [leg]) == Step(ScanOf(own), leg, |own|)
  {
    assert (own + [leg])[..|own|] == own;
  }

  /** Every run, the one still open last. */
  function RunsOf(own: seq<Entry>): seq<Run> {
    var scan := ScanOf(own);
    scan.closed
    + match scan.open
      case Some((start, from)) => [Run(start, None, from, None)]
      case None => []
  }

  // ---- What the runs are ------------------------------------------------------

  /** Positions where a run ends; a run still open goes to the end of the list. */
  function EndOf(own: seq<Entry>, run: Run): nat {
    if run.end.Some? then run.end.value else |own|
  }

  /** A maximal stretch: the balance is not negative before it, negative after
      every leg of it, and, once resolved, not negative after the leg that ends it. */
  ghost predicate IsNegativeRun(own: seq<Entry>, run: Run) {
    && run.start < EndOf(own, run) <= |own|
    && (run.end.Some? ==> run.end.value < |own|)
    && BalanceAt(own, run.start) >= 0
    && (forall m | run.start <= m < EndOf(own, run) :: NegativeAfter(own, m))
    && (run.end.Some? ==> !NegativeAfter(own, run.end.value))
    && run.from == own[run.start].date
    && run.resolved == (if run.end.Some? then Some(own[run.end.value].date) else None)
  }

  ghost predicate Holds(own: seq<Entry>, runs: seq<Run>, m: nat) {
    exists i | 0 <= i < |runs| :: runs[i].start <= m < EndOf(own, runs[i])
  }

  /** Runs in order, each ending before the next begins, that between them hold
      every leg after which the balance is negative. */
  ghost predicate AreTheNegativeRuns(own: seq<Entry>, runs: seq<Run>) {
    && (forall i | 0 <= i < |runs| :: IsNegativeRun(own, runs[i]))
    && (forall i, j | 0 <= i < j < |runs| :: runs[i].end.Some? && runs[i].end.value < runs[j].start)
    && (forall m | 0 <= m < |own| && NegativeAfter(own, m) :: Holds(own, runs, m))
  }

  lemma {:induction false} ScanBalance(own: seq<Entry>)
    ensures ScanOf(own).balance == Balance(own)
    ensures ScanOf(own).open.Some? <==> Balance(own) < 0
  {
    if own != [] {
      var n := |own| - 1;
      ScanBalance(own[..n]);
      assert own == own[..n] + [own[n]];
      BalancePrefix(own[..n], own[n], n);
    }
  }

  lemma {:induction false} BalancePrefix(own: seq<Entry>, leg: Entry, m: nat)
    requires m <= |own|
    ensures BalanceAt(own + [leg], m) == BalanceAt(own, m)
  {
    if m > 0 {
      BalancePrefix(own, leg, m - 1);
    }
  }

  lemma {:induction false} PrefixesStay(own: seq<Entry>, leg: Entry)
    ensures forall m | 0 <= m <= |own| :: BalanceAt(own + [leg], m) == BalanceAt(own, m)
    ensures forall m | 0 <= m < |own| :: NegativeAfter(own + [leg], m) == NegativeAfter(own, m)
    ensures NegativeAfter(own + [leg], |own|) <==> Balance(own) + leg.amount < 0
  {
    forall m | 0 <= m <= |own|
      ensures BalanceAt(own + [leg], m) == BalanceAt(own, m)
    {
      BalancePrefix(own, leg, m);
    }
  }

  /** The open run of a scan, if there is one, as a run without an end. */
  ghost predicate OpenIsRun(own: seq<Entry>, scan: Scan) {
    scan.open.Some? ==> IsNegativeRun(own, Run(scan.open.value.0, None, scan.open.value.1, None))
  }

  ghost predicate ClosedAreRuns(own: seq<Entry>, closed: seq<Run>) {
    forall i | 0 <= i < |closed| :: IsNegativeRun(own, closed[i]) && closed[i].end.Some?
  }

  /** What one more leg does to the runs found so far. */
  lemma {:induction false} StepKeepsRuns(own: seq<Entry>, leg: Entry)
    requires ClosedAreRuns(own, ScanOf(own).closed) && OpenIsRun(own, ScanOf(own))
    ensures var scan := Step(ScanOf(own), leg, |own|);
            ClosedAreRuns(own + [leg], scan.closed) && OpenIsRun(own + [leg], scan)
  {
    ScanBalance(own);
    PrefixesStay(own, leg);
  }

  lemma {:induction false} ScanFindsRuns(own: seq<Entry>)
    ensures ClosedAreRuns(own, ScanOf(own).closed) && OpenIsRun(own, ScanOf(own))
  {
    if own != [] {
      var n := |own| - 1;
      ScanFindsRuns(own[..n]);
      StepKeepsRuns(own[..n], own[n]);
      assert own == own[..n] + [own[n]];
    }
  }

  // Order and completeness are about positions alone.

  ghost predicate InOrder(own: seq<Entry>, scan: Scan) {
    && (forall i | 0 <= i < |scan.closed| :: scan.closed[i].end.Some? && scan.closed[i].end.value < |own|)
    && (forall i, j | 0 <= i < j < |scan.closed| :: scan.closed[i].end.value < scan.closed[j].start)
    && (scan.open.Some? ==> forall i | 0 <= i < |scan.closed| :: scan.closed[i].end.value < scan.open.value.0)
    && (scan.open.Some? ==> scan.open.value.0 < |own|)
  }

  lemma {:induction false} ScanKeepsOrder(own: seq<Entry>)
    ensures InOrder(own, ScanOf(own))
  {
    if own != [] {
      ScanKeepsOrder(own[..|own| - 1]);
    }
  }

  /** Where a resolved run ends. */
  function EndBefore(run: Run): nat {
    if run.end.Some? then run.end.value else 0
  }

  ghost predicate HeldBy(scan: Scan, m: nat) {
    || (exists i | 0 <= i < |scan.closed| :: scan.closed[i].start <= m < EndBefore(scan.closed[i]))
    || (scan.open.Some? && scan.open.value.0 <= m)
  }

  lemma {:induction false} StepKeepsHeld(own: seq<Entry>, leg: Entry, m: nat)
    requires InOrder(own, ScanOf(own)) && m < |own| && HeldBy(ScanOf(own), m)
    ensures HeldBy(Step(ScanOf(own), leg, |own|), m)
  {
    var before, after := ScanOf(own), Step(ScanOf(own), leg, |own|);
    if i :| 0 <= i < |before.closed| && before.closed[i].start <= m < EndBefore(before.closed[i]) {
      assert after.closed[i] == before.closed[i];
    } else if before.open.Some? && after.open.None? {
      var last := |after.closed| - 1;
      assert after.closed[last].start <= m < EndBefore(after.closed[last]);
    }
  }

  lemma {:induction false} ScanHoldsNegatives(own: seq<Entry>, m: nat)
    requires m < |own| && NegativeAfter(own, m)
    ensures HeldBy(ScanOf(own), m)
  {
    var n := |own| - 1;
    assert own == own[..n] + [own[n]];
    PrefixesStay(own[..n], own[n]);
    ScanKeepsOrder(own[..n]);
    if m < n {
      ScanHoldsNegatives(own[..n], m);
      StepKeepsHeld(own[..n], own[n], m);
    } else {
      ScanBalance(own);
    }
  }

  lemma {:induction false} RunsHoldNegatives(own: seq<Entry>, m: nat)
    requires m < |own| && NegativeAfter(own, m)
    ensures Holds(own, RunsOf(own), m)
  {
    var scan, runs := ScanOf(own), RunsOf(own);
    ScanHoldsNegatives(own, m);
    ScanFindsRuns(own);
    if i :| 0 <= i < |scan.closed| && scan.closed[i].start <= m < EndBefore(scan.closed[i]) {
      assert runs[i] == scan.closed[i];
      assert runs[i].start <= m < EndOf(own, runs[i]);
    } else {
      var last := |runs| - 1;
      assert runs[last].start <= m < EndOf(own, runs[last]);
    }
  }

  /** The runs a scan finds are exactly the maximal stretches of negative balance. */
  lemma {:induction false} RunsAreTheNegativeRuns(own: seq<Entry>)
    ensures AreTheNegativeRuns(own, RunsOf(own))
  {
    ScanFindsRuns(own);
    ScanKeepsOrder(own);
    forall m | 0 <= m < |own| && NegativeAfter(own, m)
      ensures Holds(own, RunsOf(own), m)
    {
      RunsHoldNegatives(own, m);
    }
  }

  /** A run is left open exactly when the final balance is negative, and then only the last. */
  lemma {:induction false} OpenIffFinallyNegative(own: seq<Entry>)
    ensures (exists i | 0 <= i < |RunsOf(own)| :: RunsOf(own)[i].end.None?) <==> Balance(own) < 0
    ensures forall i | 0 <= i < |RunsOf(own)| && RunsOf(own)[i].end.None? :: i == |RunsOf(own)| - 1
  {
    ScanBalance(own);
    ScanFindsRuns(own);
    var runs := RunsOf(own);
    if Balance(own) < 0 {
      assert runs[|runs| - 1].end.None?;
    }
  }
}
