/** What the greedy pairing guarantees about a whole file: every row is used
    exactly once, what is paired belongs together, and nothing that could still
    be joined is left apart. */
module PairingLaws {
  import opened Outcomes
  import opened ExportRows
  import opened TransferPairing

  function Firsts(pairs: seq<(nat, nat)>): (ps: seq<nat>)
    ensures |ps| == |pairs| && forall k | 0 <= k < |pairs| :: ps[k] == pairs[k].0
  {
    if pairs == [] then [] else Firsts(pairs[..|pairs| - 1]) + [pairs[|pairs| - 1].0]
  }

  function Seconds(pairs: seq<(nat, nat)>): (ps: seq<nat>)
    ensures |ps| == |pairs| && forall k | 0 <= k < |pairs| :: ps[k] == pairs[k].1
  {
    if pairs == [] then [] else Seconds(pairs[..|pairs| - 1]) + [pairs[|pairs| - 1].1]
  }

  lemma {:induction false} PairsSnoc(pairs: seq<(nat, nat)>, p: (nat, nat))
    ensures Firsts(pairs + [p]) == Firsts(pairs) + [p.0]
    ensures Seconds(pairs + [p]) == Seconds(pairs) + [p.1]
  {
    assert (pairs + [p])[..|pairs|] == pairs;
  }

  // ---- No row twice, no row lost ------------------------------------------

  /** No choice reuses an incoming leg. */
  ghost predicate Fresh(choice: Choice) {
    forall k | 0 <= k < |choice| && choice[k].Some? :: choice[k].value !in Taken(choice[..k])
  }

  /** How often a position occurs in a list. */
  ghost function Occurs(ps: seq<nat>, x: nat): nat {
    if ps == [] then 0 else Occurs(ps[..|ps| - 1], x) + if ps[|ps| - 1] == x then 1 else 0
  }

  lemma {:induction false} OccursSnoc(ps: seq<nat>, q: nat, x: nat)
    ensures Occurs(ps + [q], x) == Occurs(ps, x) + if q == x then 1 else 0
  {
    assert (ps + [q])[..|ps|] == ps;
  }

  lemma {:induction false} OccursConcat(ps: seq<nat>, qs: seq<nat>, x: nat)
    ensures Occurs(ps + qs, x) == Occurs(ps, x) + Occurs(qs, x)
  {
    if qs == [] {
      assert ps + qs == ps;
    } else {
      OccursConcat(ps, qs[..|qs| - 1], x);
      assert ps + qs == (ps + qs[..|qs| - 1]) + [qs[|qs| - 1]];
      OccursSnoc(ps + qs[..|qs| - 1], qs[|qs| - 1], x);
    }
  }

  lemma {:induction false} OccursCounts(ps: seq<nat>, x: nat)
    ensures Occurs(ps, x) == multiset(ps)[x]
  {
    if ps != [] {
      OccursCounts(ps[..|ps| - 1], x);
      assert ps == ps[..|ps| - 1] + [ps[|ps| - 1]];
    }
  }

  lemma {:induction false} OutgoingPartition(outs: seq<nat>, ins: seq<nat>, choice: Choice, x: nat)
    requires Fits(outs, ins, choice)
    ensures Occurs(Firsts(PairsOf(outs, ins, choice)), x) + Occurs(UnpairedOut(outs, choice), x)
         == Occurs(outs[..|choice|], x)
  {
    if choice != [] {
      var k := |choice| - 1;
      OutgoingPartition(outs, ins, choice[..k], x);
      assert outs[..|choice|] == outs[..k] + [outs[k]];
      OccursSnoc(outs[..k], outs[k], x);
      if choice[k].Some? {
        var pairs := PairsOf(outs, ins, choice[..k]);
        PairsSnoc(pairs, (outs[k], ins[choice[k].value]));
        OccursSnoc(Firsts(pairs), outs[k], x);
      } else {
        OccursSnoc(UnpairedOut(outs, choice[..k]), outs[k], x);
      }
    }
  }

  lemma {:induction false} TakeOne(ins: seq<nat>, taken: set<nat>, p: nat, n: nat, x: nat)
    requires n <= |ins| && p < |ins| && p !in taken
    ensures Occurs(UnpairedIn(ins, taken, n), x)
         == Occurs(UnpairedIn(ins, taken + {p}, n), x) + if p < n && ins[p] == x then 1 else 0
  {
    if n > 0 {
      TakeOne(ins, taken, p, n - 1, x);
      var before, after := UnpairedIn(ins, taken, n - 1), UnpairedIn(ins, taken + {p}, n - 1);
      if n - 1 in taken {
        assert n - 1 in taken + {p};
      } else if n - 1 == p {
        OccursSnoc(before, ins[p], x);
        assert UnpairedIn(ins, taken + {p}, n) == after;
      } else {
        assert n - 1 !in taken + {p};
        OccursSnoc(before, ins[n - 1], x);
        OccursSnoc(after, ins[n - 1], x);
      }
    }
  }

  lemma {:induction false} NoneTaken(ins: seq<nat>, n: nat)
    requires n <= |ins|
    ensures UnpairedIn(ins, {}, n) == ins[..n]
  {
    if n > 0 {
      NoneTaken(ins, n - 1);
      assert ins[..n] == ins[..n - 1] + [ins[n - 1]];
    }
  }

  lemma {:induction false} FreshPrefix(choice: Choice, k: nat)
    requires Fresh(choice) && k <= |choice|
    ensures Fresh(choice[..k])
  {
    forall j | 0 <= j < k && choice[..k][j].Some?
      ensures choice[..k][j].value !in Taken(choice[..k][..j])
    {
      assert choice[..k][..j] == choice[..j];
    }
  }

  lemma {:induction false} IncomingPartition(outs: seq<nat>, ins: seq<nat>, choice: Choice, x: nat)
    requires Fits(outs, ins, choice) && Fresh(choice)
    ensures Occurs(Seconds(PairsOf(outs, ins, choice)), x) + Occurs(UnpairedIn(ins, Taken(choice), |ins|), x)
         == Occurs(ins, x)
  {
    if choice == [] {
      NoneTaken(ins, |ins|);
      assert ins[..|ins|] == ins;
    } else {
      var k := |choice| - 1;
      var before := choice[..k];
      FreshPrefix(choice, k);
      IncomingPartition(outs, ins, before, x);
      if choice[k].Some? {
        var pairs, p := PairsOf(outs, ins, before), choice[k].value;
        TakeOne(ins, Taken(before), p, |ins|, x);
        assert Taken(choice) == Taken(before) + {p};
        PairsSnoc(pairs, (outs[k], ins[p]));
        OccursSnoc(Seconds(pairs), ins[p], x);
      } else {
        assert Taken(choice) == Taken(before);
      }
    }
  }

  lemma {:induction false} GreedyIsFresh(rows: seq<Row>, outs: seq<nat>, ins: seq<nat>, tolerance: int, choice: Choice)
    requires InRange(rows, outs) && InRange(rows, ins) && IsGreedy(rows, outs, ins, tolerance, choice)
    ensures Fresh(choice) && Fits(outs, ins, choice)
  {
    forall k | 0 <= k < |choice| && choice[k].Some?
      ensures choice[k].value !in Taken(choice[..k]) && choice[k].value < |ins|
    {
      assert IsNearestFree(rows, outs[k], ins, Taken(choice[..k]), tolerance, |ins|, choice[k]);
    }
  }

  lemma {:induction false} SidesPartition(rows: seq<Row>, tolerance: int, x: nat)
    ensures var p := PairingOf(rows, tolerance);
            Occurs(Firsts(p.pairs), x) + Occurs(Seconds(p.pairs), x) + Occurs(p.singles, x)
            == Occurs(Outgoing(rows), x) + Occurs(Incoming(rows), x) + Occurs(Select(rows, Ordinary, |rows|), x)
  {
    var outs, ins := Outgoing(rows), Incoming(rows);
    var choice := GreedyChoice(rows, outs, ins, tolerance, |outs|);
    GreedyChoiceIsGreedy(rows, outs, ins, tolerance);
    GreedyIsFresh(rows, outs, ins, tolerance, choice);
    OutgoingPartition(outs, ins, choice, x);
    assert outs[..|choice|] == outs;
    IncomingPartition(outs, ins, choice, x);
    var outSingles, inSingles := UnpairedOut(outs, choice), UnpairedIn(ins, Taken(choice), |ins|);
    OccursConcat(outSingles + inSingles, Select(rows, Ordinary, |rows|), x);
    OccursConcat(outSingles, inSingles, x);
  }

  lemma {:induction false} KindsOccur(rows: seq<Row>, x: nat)
    ensures Occurs(Outgoing(rows), x) + Occurs(Incoming(rows), x) + Occurs(Select(rows, Ordinary, |rows|), x)
            + Occurs(ZeroLegs(rows), x) == Occurs(Positions(|rows|), x)
  {
    ByTimePermutes(rows, Select(rows, OutgoingLeg, |rows|));
    ByTimePermutes(rows, Select(rows, IncomingLeg, |rows|));
    KindsPartition(rows, |rows|);
    OccursCounts(Outgoing(rows), x);
    OccursCounts(Incoming(rows), x);
    OccursCounts(Select(rows, Ordinary, |rows|), x);
    OccursCounts(ZeroLegs(rows), x);
    OccursCounts(Positions(|rows|), x);
    assert AllKinds(rows, |rows|)[x] == multiset(Positions(|rows|))[x];
  }

  /** Every row position the pairing touches, with the legs of zero amount it leaves out. */
  function Everyone(rows: seq<Row>, p: Pairing): seq<nat> {
    Firsts(p.pairs) + Seconds(p.pairs) + p.singles + ZeroLegs(rows)
  }

  /** Every row of the file is in exactly one place: one side of one pair, the
      singles, or the legs of zero amount, which are in neither list. */
  lemma {:induction false} PairingPartitionsTheFile(rows: seq<Row>, tolerance: int)
    ensures multiset(Everyone(rows, PairingOf(rows, tolerance))) == multiset(Positions(|rows|))
  {
    var p := PairingOf(rows, tolerance);
    forall x: nat
      ensures Occurs(Everyone(rows, p), x) == Occurs(Positions(|rows|), x)
    {
      SidesPartition(rows, tolerance, x);
      KindsOccur(rows, x);
      OccursConcat(Firsts(p.pairs) + Seconds(p.pairs) + p.singles, ZeroLegs(rows), x);
      OccursConcat(Firsts(p.pairs) + Seconds(p.pairs), p.singles, x);
      OccursConcat(Firsts(p.pairs), Seconds(p.pairs), x);
    }
    SameOccurrences(Everyone(rows, p), Positions(|rows|));
  }

  lemma {:induction false} SameOccurrences(ps: seq<nat>, qs: seq<nat>)
    requires forall x: nat :: Occurs(ps, x) == Occurs(qs, x)
    ensures multiset(ps) == multiset(qs)
  {
    forall x: nat
      ensures multiset(ps)[x] == multiset(qs)[x]
    {
      OccursCounts(ps, x);
      OccursCounts(qs, x);
    }
  }

  // ---- Sound and maximal ---------------------------------------------------

  /** Two rows that belong together: an outgoing and an incoming leg of one
      amount, no farther apart than the tolerance. */
  ghost predicate IsTransfer(rows: seq<Row>, pair: (nat, nat), tolerance: int) {
    && pair.0 < |rows| && pair.1 < |rows|
    && KindOf(rows[pair.0]) == OutgoingLeg && KindOf(rows[pair.1]) == IncomingLeg
    && rows[pair.1].amount == -rows[pair.0].amount
    && Gap(rows, pair.1, pair.0) <= tolerance
  }

  lemma {:induction false} PairsAreTransfers(rows: seq<Row>, outs: seq<nat>, ins: seq<nat>, tolerance: int, choice: Choice)
    requires InRange(rows, outs) && InRange(rows, ins)
    requires forall i | 0 <= i < |outs| :: KindOf(rows[outs[i]]) == OutgoingLeg
    requires forall i | 0 <= i < |ins| :: KindOf(rows[ins[i]]) == IncomingLeg
    requires Fits(outs, ins, choice)
    requires forall k | 0 <= k < |choice| && choice[k].Some? :: Joinable(rows, outs[k], ins[choice[k].value], tolerance)
    ensures forall m | 0 <= m < |PairsOf(outs, ins, choice)| :: IsTransfer(rows, PairsOf(outs, ins, choice)[m], tolerance)
  {
    if choice != [] {
      PairsAreTransfers(rows, outs, ins, tolerance, choice[..|choice| - 1]);
    }
  }

  lemma {:induction false} UnpairedOutWhy(outs: seq<nat>, choice: Choice, a: nat) returns (k: nat)
    requires |choice| <= |outs| && a in UnpairedOut(outs, choice)
    ensures k < |choice| && choice[k] == None && outs[k] == a
  {
    var last := |choice| - 1;
    if choice[last].None? && outs[last] == a {
      k := last;
    } else {
      k := UnpairedOutWhy(outs, choice[..last], a);
    }
  }

  lemma {:induction false} UnpairedInWhy(ins: seq<nat>, taken: set<nat>, n: nat, b: nat) returns (j: nat)
    requires n <= |ins| && b in UnpairedIn(ins, taken, n)
    ensures j < n && j !in taken && ins[j] == b
  {
    if n - 1 !in taken && ins[n - 1] == b {
      j := n - 1;
    } else {
      j := UnpairedInWhy(ins, taken, n - 1, b);
    }
  }

  lemma {:induction false} TakenGrows(choice: Choice, k: nat)
    requires k <= |choice|
    ensures Taken(choice[..k]) <= Taken(choice)
  {
    if k < |choice| {
      TakenGrows(choice[..|choice| - 1], k);
      assert choice[..|choice| - 1][..k] == choice[..k];
    } else {
      assert choice[..k] == choice;
    }
  }

  /** Every pair is a transfer. */
  lemma {:induction false} PairingIsSound(rows: seq<Row>, tolerance: int)
    ensures forall pair | pair in PairingOf(rows, tolerance).pairs :: IsTransfer(rows, pair, tolerance)
  {
    var outs, ins := Outgoing(rows), Incoming(rows);
    var choice := GreedyChoice(rows, outs, ins, tolerance, |outs|);
    GreedyChoiceIsGreedy(rows, outs, ins, tolerance);
    GreedyIsFresh(rows, outs, ins, tolerance, choice);
    forall k | 0 <= k < |choice| && choice[k].Some?
      ensures Joinable(rows, outs[k], ins[choice[k].value], tolerance)
    {
      assert IsNearestFree(rows, outs[k], ins, Taken(choice[..k]), tolerance, |ins|, choice[k]);
    }
    PairsAreTransfers(rows, outs, ins, tolerance, choice);
  }

  /** An outgoing leg is left without a choice only if no leg free at the end could be joined to it. */
  lemma {:induction false} NoMissedChoice(rows: seq<Row>, outs: seq<nat>, ins: seq<nat>, tolerance: int, choice: Choice, k: nat, j: nat)
    requires InRange(rows, outs) && InRange(rows, ins) && IsGreedy(rows, outs, ins, tolerance, choice)
    requires k < |outs| && choice[k].None? && j < |ins| && j !in Taken(choice)
    ensures !Joinable(rows, outs[k], ins[j], tolerance)
  {
    TakenGrows(choice, k);
    assert IsNearestFree(rows, outs[k], ins, Taken(choice[..k]), tolerance, |ins|, choice[k]);
  }

  /** Where a single came from, by its kind. */
  lemma {:induction false} KindOfSingle(rows: seq<Row>, tolerance: int, a: nat)
    requires a in PairingOf(rows, tolerance).singles
    ensures var outs, ins := Outgoing(rows), Incoming(rows);
            var choice := GreedyChoice(rows, outs, ins, tolerance, |outs|);
            && a < |rows|
            && (KindOf(rows[a]) == OutgoingLeg ==> a in UnpairedOut(outs, choice))
            && (KindOf(rows[a]) == IncomingLeg ==> a in UnpairedIn(ins, Taken(choice), |ins|))
            && KindOf(rows[a]) != ZeroLeg
  {
    var outs, ins := Outgoing(rows), Incoming(rows);
    var choice := GreedyChoice(rows, outs, ins, tolerance, |outs|);
    if a in UnpairedOut(outs, choice) {
      var k := UnpairedOutWhy(outs, choice, a);
    } else if a in UnpairedIn(ins, Taken(choice), |ins|) {
      var j := UnpairedInWhy(ins, Taken(choice), |ins|, a);
    } else {
      var others := Select(rows, Ordinary, |rows|);
      assert a in others;
      var i :| 0 <= i < |others| && others[i] == a;
    }
  }

  /** The choice `pair_legs` makes over a whole file. */
  function WholeChoice(rows: seq<Row>, tolerance: int): Choice {
    GreedyChoice(rows, Outgoing(rows), Incoming(rows), tolerance, |Outgoing(rows)|)
  }

  /** A single outgoing leg is one that was given no choice. */
  lemma {:induction false} OutgoingSingle(rows: seq<Row>, tolerance: int, a: nat) returns (k: nat)
    requires a in PairingOf(rows, tolerance).singles && a < |rows| && KindOf(rows[a]) == OutgoingLeg
    ensures k < |Outgoing(rows)| && Outgoing(rows)[k] == a && WholeChoice(rows, tolerance)[k].None?
  {
    KindOfSingle(rows, tolerance, a);
    k := UnpairedOutWhy(Outgoing(rows), WholeChoice(rows, tolerance), a);
  }

  /** A single incoming leg is one that nothing took. */
  lemma {:induction false} IncomingSingle(rows: seq<Row>, tolerance: int, b: nat) returns (j: nat)
    requires b in PairingOf(rows, tolerance).singles && b < |rows| && KindOf(rows[b]) == IncomingLeg
    ensures j < |Incoming(rows)| && Incoming(rows)[j] == b && j !in Taken(WholeChoice(rows, tolerance))
  {
    KindOfSingle(rows, tolerance, b);
    j := UnpairedInWhy(Incoming(rows), Taken(WholeChoice(rows, tolerance)), |Incoming(rows)|, b);
  }

  /** A row left single on each side is never a transfer that was missed. */
  lemma {:induction false} PairingIsMaximal(rows: seq<Row>, tolerance: int, a: nat, b: nat)
    requires a in PairingOf(rows, tolerance).singles && b in PairingOf(rows, tolerance).singles
    ensures !IsTransfer(rows, (a, b), tolerance)
  {
    if a < |rows| && b < |rows| && KindOf(rows[a]) == OutgoingLeg && KindOf(rows[b]) == IncomingLeg {
      var k := OutgoingSingle(rows, tolerance, a);
      var j := IncomingSingle(rows, tolerance, b);
      GreedyChoiceIsGreedy(rows, Outgoing(rows), Incoming(rows), tolerance);
      NoMissedChoice(rows, Outgoing(rows), Incoming(rows), tolerance, WholeChoice(rows, tolerance), k, j);
    }
  }
}
