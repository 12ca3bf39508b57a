/** The pairing of a file said in its own columns: descriptions, amounts and moments.

    Which legs are joined, which are left, and in whose favour, without the scan, the
    gap or the tables the pairing works with. */
module PairingMoments {
  import opened ExportRows
  import opened TransferPairing
  import opened PairingLaws
  import opened PairingQuality

  predicate IsLeg(row: Row) {
    row.legend == "Между своими счетами"
  }

  /** Money left one leg and the same money arrived on the other. */
  predicate Mirror(out: Row, inn: Row) {
    IsLeg(out) && IsLeg(inn) && out.amount < 0 && inn.amount == -out.amount
  }

  lemma {:induction false} MirrorKinds(out: Row, inn: Row)
    ensures Mirror(out, inn) <==>
            KindOf(out) == OutgoingLeg && KindOf(inn) == IncomingLeg && inn.amount == -out.amount
  {
  }

  /** The legs of every pair mirror each other and are posted no more seconds apart
      than the tolerance, either of them first. */
  lemma {:induction false} PairsMeet(rows: seq<Row>, tolerance: int, k: nat)
    requires k < |PairingOf(rows, tolerance).pairs|
    ensures var (out, inn) := PairingOf(rows, tolerance).pairs[k];
      && out < |rows| && inn < |rows| && Mirror(rows[out], rows[inn])
      && -tolerance <= rows[inn].moment - rows[out].moment <= tolerance
  {
    var pair := PairingOf(rows, tolerance).pairs[k];
    PairingIsSound(rows, tolerance);
    assert IsTransfer(rows, pair, tolerance);
    MirrorKinds(rows[pair.0], rows[pair.1]);
  }

  /** Two mirrored legs that are both left single are posted further apart than that. */
  lemma {:induction false} SinglesDoNotMeet(rows: seq<Row>, tolerance: int, a: nat, b: nat)
    requires a < |rows| && b < |rows| && Mirror(rows[a], rows[b])
    requires a in PairingOf(rows, tolerance).singles && b in PairingOf(rows, tolerance).singles
    ensures !(-tolerance <= rows[b].moment - rows[a].moment <= tolerance)
  {
    MirrorKinds(rows[a], rows[b]);
    PairingIsMaximal(rows, tolerance, a, b);
  }

  // ---- Turns ----------------------------------------------------------------------------

  /** Where a pair came from: the turn of its outgoing leg. */
  lemma {:induction false} TurnOfPair(outs: seq<nat>, ins: seq<nat>, choice: Choice, k: nat) returns (t: nat)
    requires Fits(outs, ins, choice) && k < |PairsOf(outs, ins, choice)|
    ensures t < |choice| && choice[t].Some? && Fits(outs, ins, choice[..t])
    ensures PairsOf(outs, ins, choice)[k] == (outs[t], ins[choice[t].value])
    ensures |PairsOf(outs, ins, choice[..t])| == k
  {
    var last := |choice| - 1;
    var before := PairsOf(outs, ins, choice[..last]);
    if k < |before| {
      t := TurnOfPair(outs, ins, choice[..last], k);
      assert choice[..last][..t] == choice[..t];
    } else {
      t := last;
    }
  }

  lemma {:induction false} FewerPairsBefore(outs: seq<nat>, ins: seq<nat>, choice: Choice, t: nat)
    requires Fits(outs, ins, choice) && t <= |choice|
    ensures |PairsOf(outs, ins, choice[..t])| <= |PairsOf(outs, ins, choice)|
  {
    if t < |choice| {
      FewerPairsBefore(outs, ins, choice[..|choice| - 1], t);
      assert choice[..|choice| - 1][..t] == choice[..t];
    } else {
      assert choice[..t] == choice;
    }
  }

  /** A later pair had a later turn. */
  lemma {:induction false} LaterTurn(outs: seq<nat>, ins: seq<nat>, choice: Choice, t: nat, u: nat)
    requires Fits(outs, ins, choice) && t < |choice| && u < |choice|
    requires |PairsOf(outs, ins, choice[..t])| < |PairsOf(outs, ins, choice[..u])|
    ensures t < u
  {
    forall m: nat | m <= t
      ensures |PairsOf(outs, ins, choice[..m])| <= |PairsOf(outs, ins, choice[..t])|
    {
      FewerPairsBefore(outs, ins, choice[..t], m);
      assert choice[..t][..m] == choice[..m];
    }
  }

  /** What the pairing starts from and what it chooses: two sides in time order, and a
      greedy choice that takes no leg twice. */
  ghost predicate IsPlayed(rows: seq<Row>, outs: seq<nat>, ins: seq<nat>, tolerance: int, choice: Choice) {
    && InRange(rows, outs) && InRange(rows, ins)
    && InTimeOrder(rows, outs) && InTimeOrder(rows, ins)
    && IsGreedy(rows, outs, ins, tolerance, choice) && Fits(outs, ins, choice) && Fresh(choice)
  }

  lemma {:induction false} WholeChoiceIsPlayed(rows: seq<Row>, tolerance: int)
    ensures IsPlayed(rows, Outgoing(rows), Incoming(rows), tolerance, WholeChoice(rows, tolerance))
    ensures PairingOf(rows, tolerance).pairs == PairsOf(Outgoing(rows), Incoming(rows), WholeChoice(rows, tolerance))
  {
    SidesAreInTimeOrder(rows);
    GreedyChoiceIsGreedy(rows, Outgoing(rows), Incoming(rows), tolerance);
    GreedyIsFresh(rows, Outgoing(rows), Incoming(rows), tolerance, WholeChoice(rows, tolerance));
  }

  /** Earlier in time, or of one moment and higher up in the file. */
  predicate ComesFirst(rows: seq<Row>, a: nat, b: nat)
    requires a < |rows| && b < |rows|
  {
    rows[a].moment < rows[b].moment || (rows[a].moment == rows[b].moment && a < b)
  }

  lemma {:induction false} EarlierTurnComesFirst(rows: seq<Row>, ps: seq<nat>, i: nat, j: nat)
    requires InRange(rows, ps) && InTimeOrder(rows, ps) && i < j < |ps|
    ensures ComesFirst(rows, ps[i], ps[j])
  {
    assert Earlier(rows, ps[i], ps[j]);
  }

  /** One moment is no further from a third than another is, on whatever sides they are. */
  predicate NoFurther(from: int, near: int, far: int) {
    var d, e := near - from, far - from;
    (d <= e && -d <= e) || (e <= d && e <= -d)
  }

  /** Of two free legs the one taken is nearer, or as near and first. */
  predicate Preferred(rows: seq<Row>, out: nat, inn: nat, leg: nat)
    requires out < |rows| && inn < |rows| && leg < |rows|
  {
    && NoFurther(rows[out].moment, rows[inn].moment, rows[leg].moment)
    && (NoFurther(rows[out].moment, rows[leg].moment, rows[inn].moment) ==> inn == leg || ComesFirst(rows, inn, leg))
  }

  lemma {:induction false} SmallerGapIsPreferred(rows: seq<Row>, out: nat, inn: nat, leg: nat)
    requires out < |rows| && inn < |rows| && leg < |rows|
    requires Gap(rows, inn, out) < Gap(rows, leg, out)
             || (Gap(rows, inn, out) == Gap(rows, leg, out) && (inn == leg || ComesFirst(rows, inn, leg)))
    ensures Preferred(rows, out, inn, leg)
  {
  }

  lemma {:induction false} TurnTakesPreferred(rows: seq<Row>, outs: seq<nat>, ins: seq<nat>, tolerance: int, choice: Choice, t: nat, j: nat)
    requires IsPlayed(rows, outs, ins, tolerance, choice)
    requires t < |choice| && choice[t].Some? && j < |ins| && j !in Taken(choice[..t])
    requires Mirror(rows[outs[t]], rows[ins[j]])
    ensures Preferred(rows, outs[t], ins[choice[t].value], ins[j])
  {
    GreedyAt(rows, outs, ins, tolerance, choice, t);
    var b := choice[t].value;
    if Gap(rows, ins[j], outs[t]) <= tolerance {
      assert Joinable(rows, outs[t], ins[j], tolerance);
      if b < j {
        EarlierTurnComesFirst(rows, ins, b, j);
      }
    }
    SmallerGapIsPreferred(rows, outs[t], ins[b], ins[j]);
  }

  lemma {:induction false} PassedOverEarlier(rows: seq<Row>, outs: seq<nat>, ins: seq<nat>, tolerance: int, choice: Choice, t: nat, u: nat)
    requires IsPlayed(rows, outs, ins, tolerance, choice)
    requires t < |choice| && u < |choice| && choice[t].Some? && choice[u].None?
    requires Mirror(rows[outs[u]], rows[ins[choice[t].value]])
    requires -tolerance <= rows[ins[choice[t].value]].moment - rows[outs[u]].moment <= tolerance
    ensures t < u
  {
    var j := choice[t].value;
    GreedyAt(rows, outs, ins, tolerance, choice, u);
    assert Joinable(rows, outs[u], ins[j], tolerance);
    assert j in Taken(choice[..u]);
    assert j !in Taken(choice[..t]);
    forall m: nat | m <= t
      ensures Taken(choice[..m]) <= Taken(choice[..t])
    {
      TakenGrows(choice[..t], m);
      assert choice[..t][..m] == choice[..m];
    }
  }

  /** The pairs stand in the order their outgoing legs take their turns: by moment,
      and of one moment by place in the file. */
  lemma {:induction false} PairsTakeTurns(rows: seq<Row>, tolerance: int, k: nat, l: nat)
    requires k < l < |PairingOf(rows, tolerance).pairs|
    ensures var a, b := PairingOf(rows, tolerance).pairs[k].0, PairingOf(rows, tolerance).pairs[l].0;
      a < |rows| && b < |rows| && ComesFirst(rows, a, b)
  {
    WholeChoiceIsPlayed(rows, tolerance);
    var outs, ins, choice := Outgoing(rows), Incoming(rows), WholeChoice(rows, tolerance);
    var t := TurnOfPair(outs, ins, choice, k);
    var u := TurnOfPair(outs, ins, choice, l);
    LaterTurn(outs, ins, choice, t, u);
    EarlierTurnComesFirst(rows, outs, t, u);
  }

  /** At the turn of pair `k` the leg is still free: nothing takes it, or a later pair does. */
  ghost predicate IsFreeAt(p: Pairing, k: nat, leg: nat) {
    leg in p.singles || exists l | k < l < |p.pairs| :: p.pairs[l].1 == leg
  }

  lemma {:induction false} TakenLaterIsFree(outs: seq<nat>, ins: seq<nat>, choice: Choice, t: nat, l: nat) returns (j: nat)
    requires Fits(outs, ins, choice) && Fresh(choice) && t < |choice| && l < |PairsOf(outs, ins, choice)|
    requires |PairsOf(outs, ins, choice[..t])| < l
    ensures j < |ins| && ins[j] == PairsOf(outs, ins, choice)[l].1 && j !in Taken(choice[..t])
  {
    var u := TurnOfPair(outs, ins, choice, l);
    LaterTurn(outs, ins, choice, t, u);
    j := choice[u].value;
    TakenGrows(choice[..u], t);
    assert choice[..u][..t] == choice[..t];
  }

  lemma {:induction false} SingleIsFree(rows: seq<Row>, tolerance: int, t: nat, leg: nat) returns (j: nat)
    requires leg in PairingOf(rows, tolerance).singles && leg < |rows| && KindOf(rows[leg]) == IncomingLeg
    requires t <= |WholeChoice(rows, tolerance)|
    ensures j < |Incoming(rows)| && Incoming(rows)[j] == leg && j !in Taken(WholeChoice(rows, tolerance)[..t])
  {
    j := IncomingSingle(rows, tolerance, leg);
    TakenGrows(WholeChoice(rows, tolerance), t);
  }

  /** Every outgoing leg took the nearest of the mirrored legs still free at its turn, and
      of two equally near the one that comes first. */
  lemma {:induction false} TakenLegIsNearest(rows: seq<Row>, tolerance: int, k: nat, leg: nat)
    requires k < |PairingOf(rows, tolerance).pairs| && IsFreeAt(PairingOf(rows, tolerance), k, leg)
    requires var out := PairingOf(rows, tolerance).pairs[k].0;
      out < |rows| && leg < |rows| && Mirror(rows[out], rows[leg])
    ensures var (out, inn) := PairingOf(rows, tolerance).pairs[k];
      inn < |rows| && Preferred(rows, out, inn, leg)
  {
    WholeChoiceIsPlayed(rows, tolerance);
    var outs, ins, choice := Outgoing(rows), Incoming(rows), WholeChoice(rows, tolerance);
    var p := PairingOf(rows, tolerance);
    var t := TurnOfPair(outs, ins, choice, k);
    MirrorKinds(rows[outs[t]], rows[leg]);
    var j: nat;
    if leg in p.singles {
      j := SingleIsFree(rows, tolerance, t, leg);
    } else {
      var l :| k < l < |p.pairs| && p.pairs[l].1 == leg;
      j := TakenLaterIsFree(outs, ins, choice, t, l);
    }
    TurnTakesPreferred(rows, outs, ins, tolerance, choice, t, j);
  }

  lemma {:induction false} LegOfSomePair(rows: seq<Row>, tolerance: int, leg: nat) returns (k: nat)
    requires leg < |rows| && KindOf(rows[leg]) == IncomingLeg && leg !in PairingOf(rows, tolerance).singles
    ensures k < |PairingOf(rows, tolerance).pairs| && PairingOf(rows, tolerance).pairs[k].1 == leg
  {
    var p := PairingOf(rows, tolerance);
    UsedOnce(rows, tolerance, leg);
    AbsentOccursNever(p.singles, leg);
    AbsentOccursNever(ZeroLegs(rows), leg);
    AbsentOccursNever(Firsts(p.pairs), leg);
    AbsentOccursNever(Seconds(p.pairs), leg);
    forall i | 0 <= i < |p.pairs|
      ensures Firsts(p.pairs)[i] != leg
    {
      PairsMeet(rows, tolerance, i);
    }
    k :| 0 <= k < |Seconds(p.pairs)| && Seconds(p.pairs)[k] == leg;
  }

  /** An outgoing leg is left single only where every mirrored leg within the tolerance
      had been taken before its turn. */
  lemma {:induction false} PassedOverLegWasTaken(rows: seq<Row>, tolerance: int, a: nat, leg: nat) returns (k: nat)
    requires a in PairingOf(rows, tolerance).singles && a < |rows| && leg < |rows| && Mirror(rows[a], rows[leg])
    requires -tolerance <= rows[leg].moment - rows[a].moment <= tolerance
    ensures k < |PairingOf(rows, tolerance).pairs| && PairingOf(rows, tolerance).pairs[k].1 == leg
    ensures var b := PairingOf(rows, tolerance).pairs[k].0; b < |rows| && ComesFirst(rows, b, a)
  {
    WholeChoiceIsPlayed(rows, tolerance);
    var outs, ins, choice := Outgoing(rows), Incoming(rows), WholeChoice(rows, tolerance);
    MirrorKinds(rows[a], rows[leg]);
    var u := OutgoingSingle(rows, tolerance, a);
    if leg in PairingOf(rows, tolerance).singles {
      SinglesDoNotMeet(rows, tolerance, a, leg);
    }
    k := LegOfSomePair(rows, tolerance, leg);
    var t := TurnOfPair(outs, ins, choice, k);
    PassedOverEarlier(rows, outs, ins, tolerance, choice, t, u);
    EarlierTurnComesFirst(rows, outs, t, u);
  }

  // ---- The order of the singles -----------------------------------------------------------

  /** Legs that left, legs that arrived, and the other rows, in this order. */
  predicate IsLeftLeg(row: Row) {
    IsLeg(row) && row.amount < 0
  }

  predicate IsArrivedLeg(row: Row) {
    IsLeg(row) && row.amount > 0
  }

  ghost predicate KeepsOrder(rows: seq<Row>, ps: seq<nat>) {
    InRange(rows, ps) && forall i, j | 0 <= i < j < |ps| :: ComesFirst(rows, ps[i], ps[j])
  }

  lemma {:induction false} OrderSnoc(rows: seq<Row>, ps: seq<nat>, p: nat)
    requires KeepsOrder(rows, ps) && p < |rows| && forall i | 0 <= i < |ps| :: ComesFirst(rows, ps[i], p)
    ensures KeepsOrder(rows, ps + [p])
  {
  }

  lemma {:induction false} UnpairedOutInOrder(rows: seq<Row>, outs: seq<nat>, choice: Choice)
    requires InRange(rows, outs) && InTimeOrder(rows, outs) && |choice| <= |outs|
    ensures KeepsOrder(rows, UnpairedOut(outs, choice))
  {
    if choice != [] {
      var k := |choice| - 1;
      var before := UnpairedOut(outs, choice[..k]);
      UnpairedOutInOrder(rows, outs, choice[..k]);
      if choice[k].None? {
        forall i | 0 <= i < |before|
          ensures ComesFirst(rows, before[i], outs[k])
        {
          var t := UnpairedOutWhy(outs, choice[..k], before[i]);
          EarlierTurnComesFirst(rows, outs, t, k);
        }
        OrderSnoc(rows, before, outs[k]);
      }
    }
  }

  lemma {:induction false} UnpairedInInOrder(rows: seq<Row>, ins: seq<nat>, taken: set<nat>, n: nat)
    requires InRange(rows, ins) && InTimeOrder(rows, ins) && n <= |ins|
    ensures KeepsOrder(rows, UnpairedIn(ins, taken, n))
  {
    if n > 0 {
      var before := UnpairedIn(ins, taken, n - 1);
      UnpairedInInOrder(rows, ins, taken, n - 1);
      if n - 1 !in taken {
        forall i | 0 <= i < |before|
          ensures ComesFirst(rows, before[i], ins[n - 1])
        {
          var t := UnpairedInWhy(ins, taken, n - 1, before[i]);
          EarlierTurnComesFirst(rows, ins, t, n - 1);
        }
        OrderSnoc(rows, before, ins[n - 1]);
      }
    }
  }

  lemma {:induction false} SelectAscends(rows: seq<Row>, kind: Kind, n: nat)
    requires n <= |rows|
    ensures forall i, j | 0 <= i < j < |Select(rows, kind, n)| :: Select(rows, kind, n)[i] < Select(rows, kind, n)[j]
  {
    if n > 0 {
      SelectAscends(rows, kind, n - 1);
    }
  }

  /** The singles are the legs that left, in time order, then the legs that arrived, in
      time order, then the ordinary rows in the order of the file. */
  lemma {:induction false} SinglesComeInOrder(rows: seq<Row>, tolerance: int) returns (left: seq<nat>, arrived: seq<nat>, others: seq<nat>)
    ensures PairingOf(rows, tolerance).singles == left + arrived + others
    ensures KeepsOrder(rows, left) && forall i | 0 <= i < |left| :: IsLeftLeg(rows[left[i]])
    ensures KeepsOrder(rows, arrived) && forall i | 0 <= i < |arrived| :: IsArrivedLeg(rows[arrived[i]])
    ensures forall i | 0 <= i < |others| :: others[i] < |rows| && !IsLeg(rows[others[i]])
    ensures forall i, j | 0 <= i < j < |others| :: others[i] < others[j]
  {
    var outs, ins, choice := Outgoing(rows), Incoming(rows), WholeChoice(rows, tolerance);
    SidesAreInTimeOrder(rows);
    left, arrived := UnpairedOut(outs, choice), UnpairedIn(ins, Taken(choice), |ins|);
    others := Select(rows, Ordinary, |rows|);
    UnpairedOutInOrder(rows, outs, choice);
    UnpairedInInOrder(rows, ins, Taken(choice), |ins|);
    SelectAscends(rows, Ordinary, |rows|);
    forall i | 0 <= i < |left|
      ensures IsLeftLeg(rows[left[i]])
    {
      var t := UnpairedOutWhy(outs, choice, left[i]);
    }
    forall i | 0 <= i < |arrived|
      ensures IsArrivedLeg(rows[arrived[i]])
    {
      var t := UnpairedInWhy(ins, Taken(choice), |ins|, arrived[i]);
    }
  }
}
