/** Pairing the two legs of an internal transfer (`pair_legs`).

    The bank posts the legs separately and a moment apart. Outgoing legs are
    taken in time order, and each takes the nearest free incoming leg of its own
    amount within the tolerance. */
module TransferPairing {
  import opened Outcomes
  import opened StableSorting
  import opened ExportRows

  // ---- The two sides, in time order --------------------------------------

  ghost predicate InRange(rows: seq<Row>, ps: seq<nat>) {
    forall i | 0 <= i < |ps| :: ps[i] < |rows|
  }

  function Timed(rows: seq<Row>, ps: seq<nat>): (xs: seq<Keyed<nat>>)
    requires InRange(rows, ps)
    ensures |xs| == |ps|
    ensures forall i | 0 <= i < |ps| :: xs[i] == Keyed(Single(rows[ps[i]].moment), ps[i])
  {
    seq(|ps|, i requires 0 <= i < |ps| => Keyed(Single(rows[ps[i]].moment), ps[i]))
  }

  function ByTime(rows: seq<Row>, ps: seq<nat>): seq<nat>
    requires InRange(rows, ps)
  {
    Items(Sort(Timed(rows, ps)))
  }

  lemma {:induction false} ByTimePermutes(rows: seq<Row>, ps: seq<nat>)
    requires InRange(rows, ps)
    ensures multiset(ByTime(rows, ps)) == multiset(ps)
    ensures forall i | 0 <= i < |ByTime(rows, ps)| :: ByTime(rows, ps)[i] in ps
  {
    SortItems(Timed(rows, ps));
    assert Items(Timed(rows, ps)) == ps;
    forall i | 0 <= i < |ByTime(rows, ps)|
      ensures ByTime(rows, ps)[i] in ps
    {
      assert ByTime(rows, ps)[i] in multiset(ByTime(rows, ps));
    }
  }

  function Outgoing(rows: seq<Row>): (outs: seq<nat>)
    ensures InRange(rows, outs)
    ensures forall i | 0 <= i < |outs| :: KindOf(rows[outs[i]]) == OutgoingLeg
  {
    ByTimePermutes(rows, Select(rows, OutgoingLeg, |rows|));
    ByTime(rows, Select(rows, OutgoingLeg, |rows|))
  }

  function Incoming(rows: seq<Row>): (ins: seq<nat>)
    ensures InRange(rows, ins)
    ensures forall i | 0 <= i < |ins| :: KindOf(rows[ins[i]]) == IncomingLeg
  {
    ByTimePermutes(rows, Select(rows, IncomingLeg, |rows|));
    ByTime(rows, Select(rows, IncomingLeg, |rows|))
  }

  /** Row `a` comes before row `b` on its side: earlier, or of one moment and
      higher up in the file. */
  predicate Earlier(rows: seq<Row>, a: nat, b: nat)
    requires a < |rows| && b < |rows|
  {
    rows[a].moment < rows[b].moment || (rows[a].moment == rows[b].moment && a < b)
  }

  ghost predicate InLegOrder(xs: seq<Keyed<nat>>) {
    && (forall x | x in xs :: x.rank == Single(x.rank.first))
    && forall i, j | 0 <= i < j < |xs| ::
         xs[i].rank.first < xs[j].rank.first
         || (xs[i].rank.first == xs[j].rank.first && xs[i].item < xs[j].item)
  }

  lemma {:induction false} LegOrderSnoc(xs: seq<Keyed<nat>>, x: Keyed<nat>)
    requires InLegOrder(xs) && x.rank == Single(x.rank.first)
    requires forall y | y in xs :: y.rank.first < x.rank.first || (y.rank.first == x.rank.first && y.item < x.item)
    ensures InLegOrder(xs + [x])
  {
    assert forall i | 0 <= i < |xs| :: xs[i] in xs;
  }

  lemma {:induction false} InsertKeepsLegOrder(xs: seq<Keyed<nat>>, x: Keyed<nat>)
    requires InLegOrder(xs) && x.rank == Single(x.rank.first)
    requires forall y | y in xs :: y.item < x.item
    ensures InLegOrder(Insert(xs, x))
    ensures forall y | y in Insert(xs, x) :: y in xs || y == x
  {
    if xs != [] {
      var init, last := xs[..|xs| - 1], xs[|xs| - 1];
      if Le(last.rank, x.rank) {
        LegOrderSnoc(xs, x);
      } else {
        InsertKeepsLegOrder(init, x);
        LegOrderSnoc(Insert(init, x), last);
      }
    }
  }

  lemma {:induction false} TimedStep(rows: seq<Row>, kind: Kind, n: nat)
    requires 0 < n <= |rows| && KindOf(rows[n - 1]) == kind
    ensures InRange(rows, Select(rows, kind, n)) && InRange(rows, Select(rows, kind, n - 1))
    ensures Timed(rows, Select(rows, kind, n))
         == Timed(rows, Select(rows, kind, n - 1)) + [Keyed(Single(rows[n - 1].moment), n - 1)]
  {
  }

  ghost predicate RankedByMoment(rows: seq<Row>, xs: seq<Keyed<nat>>, n: nat)
    requires n <= |rows|
  {
    forall x: Keyed<nat> | x in xs :: x.item < n && x.rank == Single(rows[x.item].moment)
  }

  lemma {:induction false} SortKeepsLegOrder(rows: seq<Row>, kind: Kind, n: nat)
    requires n <= |rows|
    ensures InRange(rows, Select(rows, kind, n))
    ensures InLegOrder(Sort(Timed(rows, Select(rows, kind, n))))
    ensures RankedByMoment(rows, Sort(Timed(rows, Select(rows, kind, n))), n)
  {
    if n == 0 {
      assert Timed(rows, Select(rows, kind, 0)) == [];
    } else {
      SortKeepsLegOrder(rows, kind, n - 1);
      if KindOf(rows[n - 1]) == kind {
        var before := Timed(rows, Select(rows, kind, n - 1));
        var x := Keyed(Single(rows[n - 1].moment), n - 1);
        TimedStep(rows, kind, n);
        assert (before + [x])[..|before|] == before;
        InsertKeepsLegOrder(Sort(before), x);
      } else {
        assert Select(rows, kind, n) == Select(rows, kind, n - 1);
      }
    }
  }

  ghost predicate InTimeOrder(rows: seq<Row>, ps: seq<nat>)
    requires InRange(rows, ps)
  {
    forall i, j | 0 <= i < j < |ps| :: Earlier(rows, ps[i], ps[j])
  }

  lemma {:induction false} ByTimeIsInTimeOrder(rows: seq<Row>, kind: Kind)
    ensures InRange(rows, Select(rows, kind, |rows|))
    ensures InRange(rows, ByTime(rows, Select(rows, kind, |rows|)))
    ensures InTimeOrder(rows, ByTime(rows, Select(rows, kind, |rows|)))
  {
    var ps := Select(rows, kind, |rows|);
    SortKeepsLegOrder(rows, kind, |rows|);
    var sorted: seq<Keyed<nat>> := Sort<nat>(Timed(rows, ps));
    var ordered: seq<nat> := Items<nat>(sorted);
    assert ByTime(rows, ps) == ordered;
    forall i | 0 <= i < |sorted|
      ensures ordered[i] == sorted[i].item < |rows| && sorted[i].rank.first == rows[ordered[i]].moment
    {
      assert sorted[i] in sorted;
    }
  }

  /** The sides are in time order, and legs of one moment keep the order of the file. */
  lemma {:induction false} SidesAreInTimeOrder(rows: seq<Row>)
    ensures InTimeOrder(rows, Outgoing(rows)) && InTimeOrder(rows, Incoming(rows))
  {
    ByTimeIsInTimeOrder(rows, OutgoingLeg);
    ByTimeIsInTimeOrder(rows, IncomingLeg);
  }

  // ---- The greedy choice --------------------------------------------------

  /** The seconds between two rows, whole days included. */
  function Gap(rows: seq<Row>, a: nat, b: nat): (gap: int)
    requires a < |rows| && b < |rows|
    ensures gap >= 0
    ensures rows[a].moment == rows[b].moment + gap || rows[b].moment == rows[a].moment + gap
  {
    var d := rows[a].moment - rows[b].moment;
    if d < 0 then -d else d
  }

  /** Whether two rows could be the legs of one transfer. */
  predicate Joinable(rows: seq<Row>, out: nat, inn: nat, tolerance: int)
    requires out < |rows| && inn < |rows|
  {
    Abs(rows[inn].amount) == Abs(rows[out].amount) && Gap(rows, inn, out) <= tolerance
  }

  /** The best of the first `n` incoming legs, scanning from the front and
      replacing only on a strictly smaller gap. */
  function NearestFree(rows: seq<Row>, out: nat, ins: seq<nat>, taken: set<nat>, tolerance: int, n: nat)
    : (best: Option<nat>)
    requires out < |rows| && InRange(rows, ins) && n <= |ins|
    ensures best.Some? ==> best.value < n
  {
    if n == 0 then None
    else
      var best := NearestFree(rows, out, ins, taken, tolerance, n - 1);
      if n - 1 in taken || Abs(rows[ins[n - 1]].amount) != Abs(rows[out].amount) then best
      else
        var gap := Gap(rows, ins[n - 1], out);
        if gap <= tolerance && (best.None? || gap < Gap(rows, ins[best.value], out)) then Some(n - 1) else best
  }

  /** What makes a choice right, said without the scan: nothing is chosen only
      where nothing free can be joined; otherwise what is chosen is free, can be
      joined, is no farther than any other such leg, and strictly nearer than
      any that comes before it. */
  ghost predicate IsNearestFree(rows: seq<Row>, out: nat, ins: seq<nat>, taken: set<nat>, tolerance: int,
                                n: nat, best: Option<nat>)
    requires out < |rows| && InRange(rows, ins) && n <= |ins|
  {
    match best
    case None => forall i | 0 <= i < n && i !in taken :: !Joinable(rows, out, ins[i], tolerance)
    case Some(b) =>
      && b < n && b !in taken && Joinable(rows, out, ins[b], tolerance)
      && forall i | 0 <= i < n && i !in taken && Joinable(rows, out, ins[i], tolerance) ::
           Gap(rows, ins[b], out) < Gap(rows, ins[i], out)
           || (Gap(rows, ins[b], out) == Gap(rows, ins[i], out) && b <= i)
  }

  lemma {:induction false} ScanFindsNearest(rows: seq<Row>, out: nat, ins: seq<nat>, taken: set<nat>, tolerance: int, n: nat)
    requires out < |rows| && InRange(rows, ins) && n <= |ins|
    ensures IsNearestFree(rows, out, ins, taken, tolerance, n, NearestFree(rows, out, ins, taken, tolerance, n))
  {
    if n > 0 {
      ScanFindsNearest(rows, out, ins, taken, tolerance, n - 1);
    }
  }

  type Choice = seq<Option<nat>>

  /** The positions among the incoming legs that a choice has used up. */
  function Taken(choice: Choice): set<nat> {
    if choice == [] then {}
    else
      var before, last := Taken(choice[..|choice| - 1]), choice[|choice| - 1];
      if last.Some? then before + {last.value} else before
  }

  function GreedyChoice(rows: seq<Row>, outs: seq<nat>, ins: seq<nat>, tolerance: int, n: nat): (choice: Choice)
    requires InRange(rows, outs) && InRange(rows, ins) && n <= |outs|
    ensures |choice| == n
    ensures forall k | 0 <= k < n && choice[k].Some? :: choice[k].value < |ins|
  {
    if n == 0 then []
    else
      var before := GreedyChoice(rows, outs, ins, tolerance, n - 1);
      before + [NearestFree(rows, outs[n - 1], ins, Taken(before), tolerance, |ins|)]
  }

  /** Every outgoing leg in turn is given a nearest incoming leg that the
      outgoing legs before it have left free. */
  ghost predicate IsGreedy(rows: seq<Row>, outs: seq<nat>, ins: seq<nat>, tolerance: int, choice: Choice)
    requires InRange(rows, outs) && InRange(rows, ins)
  {
    && |choice| == |outs|
    && forall k | 0 <= k < |outs| ::
         IsNearestFree(rows, outs[k], ins, Taken(choice[..k]), tolerance, |ins|, choice[k])
  }

  lemma {:induction false} GreedyPrefix(rows: seq<Row>, outs: seq<nat>, ins: seq<nat>, tolerance: int, k: nat, n: nat)
    requires InRange(rows, outs) && InRange(rows, ins) && k <= n <= |outs|
    ensures GreedyChoice(rows, outs, ins, tolerance, n)[..k] == GreedyChoice(rows, outs, ins, tolerance, k)
  {
    if k < n {
      GreedyPrefix(rows, outs, ins, tolerance, k, n - 1);
      var before := GreedyChoice(rows, outs, ins, tolerance, n - 1);
      var last := NearestFree(rows, outs[n - 1], ins, Taken(before), tolerance, |ins|);
      assert (before + [last])[..k] == before[..k];
    }
  }

  lemma {:induction false} GreedyChoiceIsGreedy(rows: seq<Row>, outs: seq<nat>, ins: seq<nat>, tolerance: int)
    requires InRange(rows, outs) && InRange(rows, ins)
    ensures IsGreedy(rows, outs, ins, tolerance, GreedyChoice(rows, outs, ins, tolerance, |outs|))
  {
    var choice := GreedyChoice(rows, outs, ins, tolerance, |outs|);
    forall k | 0 <= k < |outs|
      ensures IsNearestFree(rows, outs[k], ins, Taken(choice[..k]), tolerance, |ins|, choice[k])
    {
      GreedyPrefix(rows, outs, ins, tolerance, k, |outs|);
      GreedyPrefix(rows, outs, ins, tolerance, k + 1, |outs|);
      assert choice[k] == choice[..k + 1][k];
      ScanFindsNearest(rows, outs[k], ins, Taken(choice[..k]), tolerance, |ins|);
    }
  }

  lemma {:induction false} NearestIsDetermined(rows: seq<Row>, out: nat, ins: seq<nat>, taken: set<nat>, tolerance: int,
                            a: Option<nat>, b: Option<nat>)
    requires out < |rows| && InRange(rows, ins)
    requires IsNearestFree(rows, out, ins, taken, tolerance, |ins|, a)
    requires IsNearestFree(rows, out, ins, taken, tolerance, |ins|, b)
    ensures a == b
  {
  }

  lemma {:induction false} GreedyAt(rows: seq<Row>, outs: seq<nat>, ins: seq<nat>, tolerance: int, choice: Choice, k: nat)
    requires InRange(rows, outs) && InRange(rows, ins)
    requires IsGreedy(rows, outs, ins, tolerance, choice) && k < |outs|
    ensures IsNearestFree(rows, outs[k], ins, Taken(choice[..k]), tolerance, |ins|, choice[k])
  {
  }

  lemma {:induction false} SamePrefix(a: Choice, b: Choice, k: nat)
    requires k < |a| && k < |b| && a[..k] == b[..k] && a[k] == b[k]
    ensures a[..k + 1] == b[..k + 1]
  {
    assert a[..k + 1] == a[..k] + [a[k]] && b[..k + 1] == b[..k] + [b[k]];
  }

  /** The description leaves no freedom: two choices that meet it are one. */
  lemma {:induction false} GreedyIsDetermined(rows: seq<Row>, outs: seq<nat>, ins: seq<nat>, tolerance: int, a: Choice, b: Choice, n: nat)
    requires InRange(rows, outs) && InRange(rows, ins)
    requires IsGreedy(rows, outs, ins, tolerance, a) && IsGreedy(rows, outs, ins, tolerance, b)
    requires n <= |outs|
    ensures |a| == |b| == |outs| && a[..n] == b[..n]
  {
    if n > 0 {
      GreedyIsDetermined(rows, outs, ins, tolerance, a, b, n - 1);
      GreedyAt(rows, outs, ins, tolerance, a, n - 1);
      GreedyAt(rows, outs, ins, tolerance, b, n - 1);
      NearestIsDetermined(rows, outs[n - 1], ins, Taken(a[..n - 1]), tolerance, a[n - 1], b[n - 1]);
      SamePrefix(a, b, n - 1);
    }
  }

  // ---- What the choice makes of the file ----------------------------------

  /** Row positions: the pairs, outgoing leg first, and everything submitted or
      reported on its own. */
  datatype Pairing = Pairing(pairs: seq<(nat, nat)>, singles: seq<nat>)

  ghost predicate Fits(outs: seq<nat>, ins: seq<nat>, choice: Choice) {
    |choice| <= |outs| && forall k | 0 <= k < |choice| && choice[k].Some? :: choice[k].value < |ins|
  }

  function PairsOf(outs: seq<nat>, ins: seq<nat>, choice: Choice): seq<(nat, nat)>
    requires Fits(outs, ins, choice)
  {
    if choice == [] then []
    else
      var k := |choice| - 1;
      var before := PairsOf(outs, ins, choice[..k]);
      if choice[k].Some? then before + [(outs[k], ins[choice[k].value])] else before
  }

  function UnpairedOut(outs: seq<nat>, choice: Choice): seq<nat>
    requires |choice| <= |outs|
  {
    if choice == [] then []
    else
      var k := |choice| - 1;
      var before := UnpairedOut(outs, choice[..k]);
      if choice[k].None? then before + [outs[k]] else before
  }

  /** The first `n` incoming legs, without those taken. */
  function UnpairedIn(ins: seq<nat>, taken: set<nat>, n: nat): seq<nat>
    requires n <= |ins|
  {
    if n == 0 then []
    else
      var before := UnpairedIn(ins, taken, n - 1);
      if n - 1 !in taken then before + [ins[n - 1]] else before
  }

  function PairingOf(rows: seq<Row>, tolerance: int): Pairing {
    var outs, ins := Outgoing(rows), Incoming(rows);
    var choice := GreedyChoice(rows, outs, ins, tolerance, |outs|);
    Pairing(
      PairsOf(outs, ins, choice),
      UnpairedOut(outs, choice) + UnpairedIn(ins, Taken(choice), |ins|) + Select(rows, Ordinary, |rows|))
  }

  /** Split the rows as `pair_legs` does before it sorts anything. */
  method SplitLegs(rows: seq<Row>) returns (outs: seq<nat>, ins: seq<nat>, others: seq<nat>)
    ensures outs == Outgoing(rows) && ins == Incoming(rows) && others == Select(rows, Ordinary, |rows|)
  {
    outs, ins, others := [], [], [];
    for i := 0 to |rows|
      invariant outs == Select(rows, OutgoingLeg, i)
      invariant ins == Select(rows, IncomingLeg, i)
      invariant others == Select(rows, Ordinary, i)
    {
      if !IsInternalTransfer(rows[i]) {
        others := others + [i];
      } else if rows[i].amount < 0 {
        outs := outs + [i];
      } else if rows[i].amount > 0 {
        ins := ins + [i];
      }
    }
    outs := ByTime(rows, outs);
    ins := ByTime(rows, ins);
  }

  /** The inner scan: the nearest free incoming leg for one outgoing leg. */
  method FindNearest(rows: seq<Row>, out: nat, ins: seq<nat>, taken: set<nat>, tolerance: int)
    returns (best: Option<nat>)
    requires out < |rows| && InRange(rows, ins)
    ensures best == NearestFree(rows, out, ins, taken, tolerance, |ins|)
    ensures IsNearestFree(rows, out, ins, taken, tolerance, |ins|, best)
  {
    best := None;
    var bestGap := 0;
    for index := 0 to |ins|
      invariant best == NearestFree(rows, out, ins, taken, tolerance, index)
      invariant best.Some? ==> bestGap == Gap(rows, ins[best.value], out)
    {
      if index in taken {
        continue;
      }
      if Abs(rows[ins[index]].amount) != Abs(rows[out].amount) {
        continue;
      }
      var gap := Gap(rows, ins[index], out);
      if gap <= tolerance && (best.None? || gap < bestGap) {
        best, bestGap := Some(index), gap;
      }
    }
    ScanFindsNearest(rows, out, ins, taken, tolerance, |ins|);
  }

  lemma {:induction false} ChoiceStep(outs: seq<nat>, ins: seq<nat>, choice: Choice, best: Option<nat>)
    requires Fits(outs, ins, choice + [best])
    ensures Fits(outs, ins, choice)
    ensures var k := |choice|;
            && Taken(choice + [best]) == Taken(choice) + (if best.Some? then {best.value} else {})
            && PairsOf(outs, ins, choice + [best])
               == PairsOf(outs, ins, choice) + (if best.Some? then [(outs[k], ins[best.value])] else [])
            && UnpairedOut(outs, choice + [best]) == UnpairedOut(outs, choice) + (if best.None? then [outs[k]] else [])
  {
    var all := choice + [best];
    assert all[..|choice|] == choice;
    forall k | 0 <= k < |choice| && choice[k].Some?
      ensures choice[k].value < |ins|
    {
      assert all[k] == choice[k];
    }
  }

  /** The outer loop: every outgoing leg in time order. */
  method PairOutgoing(rows: seq<Row>, outs: seq<nat>, ins: seq<nat>, tolerance: int)
    returns (pairs: seq<(nat, nat)>, singles: seq<nat>, taken: set<nat>)
    requires InRange(rows, outs) && InRange(rows, ins)
    ensures var choice := GreedyChoice(rows, outs, ins, tolerance, |outs|);
            && taken == Taken(choice)
            && pairs == PairsOf(outs, ins, choice)
            && singles == UnpairedOut(outs, choice)
  {
    pairs, singles, taken := [], [], {};
    ghost var choice: Choice := [];
    for k := 0 to |outs|
      invariant choice == GreedyChoice(rows, outs, ins, tolerance, k)
      invariant taken == Taken(choice)
      invariant pairs == PairsOf(outs, ins, choice)
      invariant singles == UnpairedOut(outs, choice)
    {
      var best := FindNearest(rows, outs[k], ins, taken, tolerance);
      ChoiceStep(outs, ins, choice, best);
      choice := choice + [best];
      if best.None? {
        singles := singles + [outs[k]];
      } else {
        taken := taken + {best.value};
        pairs := pairs + [(outs[k], ins[best.value])];
      }
    }
  }

  /** The incoming legs nobody took, in time order. */
  method FreeIncoming(ins: seq<nat>, taken: set<nat>) returns (free: seq<nat>)
    ensures free == UnpairedIn(ins, taken, |ins|)
  {
    free := [];
    for index := 0 to |ins|
      invariant free == UnpairedIn(ins, taken, index)
    {
      if index !in taken {
        free := free + [ins[index]];
      }
    }
  }

  method PairLegs(rows: seq<Row>, tolerance: int) returns (pairing: Pairing)
    ensures pairing == PairingOf(rows, tolerance)
  {
    var outs, ins, others := SplitLegs(rows);
    var pairs, singles, taken := PairOutgoing(rows, outs, ins, tolerance);
    var free := FreeIncoming(ins, taken);
    pairing := Pairing(pairs, singles + free + others);
  }
}
