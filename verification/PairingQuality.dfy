/** How good the greedy pairing is against every other way of pairing the file. */
module PairingQuality {
  import opened Outcomes
  import opened ExportRows
  import opened StableSorting
  import opened TransferPairing
  import opened PairingLaws

  /** Any set of transfers that uses no row twice. */
  ghost predicate IsMatching(rows: seq<Row>, tolerance: int, m: seq<(nat, nat)>) {
    && (forall k | 0 <= k < |m| :: IsTransfer(rows, m[k], tolerance))
    && forall j, k | 0 <= j < k < |m| :: m[j].0 != m[k].0 && m[j].1 != m[k].1
  }

  lemma {:induction false} OccursMember(ps: seq<nat>, k: nat)
    requires k < |ps|
    ensures Occurs(ps, ps[k]) >= 1
  {
    if k < |ps| - 1 {
      OccursMember(ps[..|ps| - 1], k);
    }
  }

  lemma {:induction false} PositionsOccurOnce(n: nat, x: nat)
    ensures Occurs(Positions(n), x) == if x < n then 1 else 0
  {
    if n > 0 {
      PositionsOccurOnce(n - 1, x);
      assert Positions(n) == Positions(n - 1) + [n - 1];
      OccursSnoc(Positions(n - 1), n - 1, x);
    }
  }

  lemma {:induction false} OnceMeansDistinct(ps: seq<nat>)
    requires forall x: nat :: Occurs(ps, x) <= 1
    ensures forall j, k | 0 <= j < k < |ps| :: ps[j] != ps[k]
  {
    forall j, k | 0 <= j < k < |ps|
      ensures ps[j] != ps[k]
    {
      assert ps == ps[..k] + ps[k..];
      OccursConcat(ps[..k], ps[k..], ps[k]);
      OccursMember(ps[..k], j);
      OccursMember(ps[k..], 0);
      assert Occurs(ps, ps[k]) <= 1;
    }
  }

  /** How often each position is used, list by list: once in all. */
  lemma {:induction false} UsedOnce(rows: seq<Row>, tolerance: int, x: nat)
    ensures var p := PairingOf(rows, tolerance);
            Occurs(Firsts(p.pairs), x) + Occurs(Seconds(p.pairs), x) + Occurs(p.singles, x) + Occurs(ZeroLegs(rows), x)
            == if x < |rows| then 1 else 0
  {
    SidesPartition(rows, tolerance, x);
    KindsOccur(rows, x);
    PositionsOccurOnce(|rows|, x);
  }

  /** The greedy pairs are themselves such a set. */
  lemma {:induction false} PairsFormMatching(rows: seq<Row>, tolerance: int)
    ensures IsMatching(rows, tolerance, PairingOf(rows, tolerance).pairs)
  {
    var pairs := PairingOf(rows, tolerance).pairs;
    PairingIsSound(rows, tolerance);
    forall x: nat
      ensures Occurs(Firsts(pairs), x) <= 1 && Occurs(Seconds(pairs), x) <= 1
    {
      UsedOnce(rows, tolerance, x);
    }
    OnceMeansDistinct(Firsts(pairs));
    OnceMeansDistinct(Seconds(pairs));
    forall j, k | 0 <= j < k < |pairs|
      ensures pairs[j].0 != pairs[k].0 && pairs[j].1 != pairs[k].1
    {
      assert Firsts(pairs)[j] != Firsts(pairs)[k] && Seconds(pairs)[j] != Seconds(pairs)[k];
    }
  }

  ghost function Used(pairs: seq<(nat, nat)>): (used: set<nat>)
    ensures |used| <= 2 * |pairs|
    ensures forall k | 0 <= k < |pairs| :: pairs[k].0 in used && pairs[k].1 in used
  {
    if pairs == [] then {}
    else
      var rest, last := Used(pairs[..|pairs| - 1]), pairs[|pairs| - 1];
      assert |rest + {last.0}| <= |rest| + 1;
      assert |rest + {last.0} + {last.1}| <= |rest + {last.0}| + 1;
      rest + {last.0} + {last.1}
  }

  /** The end of a transfer that the greedy pairing used. */
  ghost function UsedEnd(pair: (nat, nat), used: set<nat>): nat {
    if pair.0 in used then pair.0 else pair.1
  }

  ghost function UsedEnds(m: seq<(nat, nat)>, used: set<nat>): set<nat> {
    if m == [] then {} else UsedEnds(m[..|m| - 1], used) + {UsedEnd(m[|m| - 1], used)}
  }

  lemma {:induction false} UsedEndsOrigin(m: seq<(nat, nat)>, used: set<nat>, x: nat) returns (k: nat)
    requires x in UsedEnds(m, used)
    ensures k < |m| && x == UsedEnd(m[k], used)
  {
    if x == UsedEnd(m[|m| - 1], used) {
      k := |m| - 1;
    } else {
      k := UsedEndsOrigin(m[..|m| - 1], used, x);
    }
  }

  /** Ends of different transfers differ: outgoing legs are not incoming ones. */
  lemma {:induction false} UsedEndsAreDistinct(rows: seq<Row>, tolerance: int, m: seq<(nat, nat)>, used: set<nat>)
    requires IsMatching(rows, tolerance, m)
    ensures |UsedEnds(m, used)| == |m|
  {
    if m != [] {
      var init, last := m[..|m| - 1], m[|m| - 1];
      UsedEndsAreDistinct(rows, tolerance, init, used);
      if UsedEnd(last, used) in UsedEnds(init, used) {
        var k := UsedEndsOrigin(init, used, UsedEnd(last, used));
        assert false;
      }
    }
  }

  lemma {:induction false} AbsentOccursNever(ps: seq<nat>, x: nat)
    ensures Occurs(ps, x) == 0 <==> x !in ps
  {
    if ps != [] {
      AbsentOccursNever(ps[..|ps| - 1], x);
      assert ps == ps[..|ps| - 1] + [ps[|ps| - 1]];
    }
  }

  lemma {:induction false} UnusedIsInNoPair(pairs: seq<(nat, nat)>, x: nat)
    requires x !in Used(pairs)
    ensures x !in Firsts(pairs) && x !in Seconds(pairs)
  {
  }

  lemma {:induction false} MemberOfSingles(rows: seq<Row>, tolerance: int, x: nat)
    requires x < |rows| && KindOf(rows[x]) != ZeroLeg
    requires x !in Used(PairingOf(rows, tolerance).pairs)
    ensures x in PairingOf(rows, tolerance).singles
  {
    var p := PairingOf(rows, tolerance);
    UsedOnce(rows, tolerance, x);
    UnusedIsInNoPair(p.pairs, x);
    AbsentOccursNever(Firsts(p.pairs), x);
    AbsentOccursNever(Seconds(p.pairs), x);
    AbsentOccursNever(ZeroLegs(rows), x);
    AbsentOccursNever(p.singles, x);
  }

  /** No pairing of the file, however clever, joins more than twice as many
      transfers as the greedy one. */
  lemma {:induction false} GreedyIsHalfOfTheBest(rows: seq<Row>, tolerance: int, m: seq<(nat, nat)>)
    requires IsMatching(rows, tolerance, m)
    ensures |m| <= 2 * |PairingOf(rows, tolerance).pairs|
  {
    var used := Used(PairingOf(rows, tolerance).pairs);
    UsedEndsAreDistinct(rows, tolerance, m, used);
    forall x | x in UsedEnds(m, used)
      ensures x in used
    {
      var k := UsedEndsOrigin(m, used, x);
      if x !in used {
        assert IsTransfer(rows, m[k], tolerance);
        MemberOfSingles(rows, tolerance, m[k].0);
        MemberOfSingles(rows, tolerance, m[k].1);
        PairingIsMaximal(rows, tolerance, m[k].0, m[k].1);
        assert false;
      }
    }
    SubsetIsNoLarger(UsedEnds(m, used), used);
  }

  lemma {:induction false} SubsetIsNoLarger(a: set<nat>, b: set<nat>)
    requires a <= b
    ensures |a| <= |b|
  {
    assert b == a + (b - a);
  }

  // ---- The bound is reached ----------------------------------------------------------

  /** Four legs of one amount: in at 0, out at 4, in at 7, out at 12. */
  ghost predicate AreCrossed(rows: seq<Row>) {
    && |rows| == 4
    && KindOf(rows[0]) == IncomingLeg && KindOf(rows[2]) == IncomingLeg
    && KindOf(rows[1]) == OutgoingLeg && KindOf(rows[3]) == OutgoingLeg
    && rows[0].amount == rows[2].amount == 1 && rows[1].amount == rows[3].amount == -1
    && rows[0].moment == 0 && rows[1].moment == 4 && rows[2].moment == 7 && rows[3].moment == 12
  }

  lemma {:induction false} TwoLegsInOrder(rows: seq<Row>, kind: Kind, x: nat, y: nat)
    requires x < |rows| && y < |rows| && rows[x].moment <= rows[y].moment
    requires Select(rows, kind, |rows|) == [x, y]
    ensures ByTime(rows, Select(rows, kind, |rows|)) == [x, y]
  {
    var ps: seq<nat> := [x, y];
    SortKeepsSorted(Timed(rows, ps));
    assert Items(Timed(rows, ps)) == ps;
  }

  lemma {:induction false} CrossedSelect(rows: seq<Row>)
    requires AreCrossed(rows)
    ensures Select(rows, OutgoingLeg, 4) == [1, 3] && Select(rows, IncomingLeg, 4) == [0, 2]
  {
    assert Select(rows, OutgoingLeg, 1) == [];
    assert Select(rows, OutgoingLeg, 2) == [1];
    assert Select(rows, OutgoingLeg, 3) == [1];
    assert Select(rows, IncomingLeg, 1) == [0];
    assert Select(rows, IncomingLeg, 2) == [0];
    assert Select(rows, IncomingLeg, 3) == [0, 2];
  }

  lemma {:induction false} CrossedSides(rows: seq<Row>)
    requires AreCrossed(rows)
    ensures Outgoing(rows) == [1, 3] && Incoming(rows) == [0, 2]
  {
    CrossedSelect(rows);
    TwoLegsInOrder(rows, OutgoingLeg, 1, 3);
    TwoLegsInOrder(rows, IncomingLeg, 0, 2);
  }

  /** The first outgoing leg is nearer to the later incoming leg. */
  lemma {:induction false} FirstTakesTheLater(rows: seq<Row>, ins: seq<nat>)
    requires AreCrossed(rows) && ins == [0, 2]
    ensures NearestFree(rows, 1, ins, {}, 5, 2) == Some(1)
  {
    assert NearestFree(rows, 1, ins, {}, 5, 0) == None;
    assert NearestFree(rows, 1, ins, {}, 5, 1) == Some(0);
  }

  /** The second is then left with one it cannot reach. */
  lemma {:induction false} SecondIsLeftOut(rows: seq<Row>, ins: seq<nat>)
    requires AreCrossed(rows) && ins == [0, 2]
    ensures NearestFree(rows, 3, ins, {1}, 5, 2) == None
  {
    assert NearestFree(rows, 3, ins, {1}, 5, 0) == None;
    assert NearestFree(rows, 3, ins, {1}, 5, 1) == None;
  }

  lemma {:induction false} CrossedChoice(rows: seq<Row>, outs: seq<nat>, ins: seq<nat>)
    requires AreCrossed(rows) && outs == [1, 3] && ins == [0, 2]
    ensures GreedyChoice(rows, outs, ins, 5, 2) == [Some(1), None]
  {
    var none: Choice, first: Choice := [], [Some(1)];
    FirstTakesTheLater(rows, ins);
    SecondIsLeftOut(rows, ins);
    assert GreedyChoice(rows, outs, ins, 5, 0) == none && Taken(none) == {};
    assert GreedyChoice(rows, outs, ins, 5, 1) == none + [Some(1)] == first;
    assert first[..0] == none && Taken(first) == {1};
  }

  /** No better bound holds: with a tolerance of 5 the greedy pairing joins one of two
      transfers, because the first outgoing leg takes the incoming leg the second needs. */
  lemma {:induction false} HalfIsReached(rows: seq<Row>)
    requires AreCrossed(rows)
    ensures |PairingOf(rows, 5).pairs| == 1
    ensures IsMatching(rows, 5, [(1, 0), (3, 2)])
  {
    CrossedSides(rows);
    var outs, ins := Outgoing(rows), Incoming(rows);
    CrossedChoice(rows, outs, ins);
    OnePair(outs, ins, 1);
  }

  lemma {:induction false} OnePair(outs: seq<nat>, ins: seq<nat>, taken: nat)
    requires |outs| == 2 && taken < |ins|
    ensures |PairsOf(outs, ins, [Some(taken), None])| == 1
  {
    var choice: Choice, first: Choice := [Some(taken), None], [Some(taken)];
    assert choice[..1] == first && first[..0] == [];
    assert |PairsOf(outs, ins, first)| == 1;
  }

  /** There is such a file. */
  lemma {:induction false} CrossedLegsExist() returns (rows: seq<Row>)
    ensures AreCrossed(rows)
  {
    var leg := Row("a", 0, 1, "", "", "", INTERNAL_TRANSFER, "");
    rows := [leg, leg.(moment := 4, amount := -1), leg.(moment := 7), leg.(moment := 12, amount := -1)];
  }
}
