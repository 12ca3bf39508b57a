/** When a span can end before it starts: exactly when replay order runs against
    the effective dates. */
module PerimeterDates {
  import opened Outcomes
  import opened Money
  import opened NegativeRuns
  import opened StableSorting
  import opened Perimeter
  import opened PerimeterLaws

  ghost predicate NonDecreasing(dates: seq<int>) {
    forall i, j | 0 <= i < j < |dates| :: dates[i] <= dates[j]
  }

  // ---- One key's legs ------------------------------------------------------------------

  /** Legs of one key, on the dates given. */
  ghost predicate HaveDates(own: seq<Entry>, key: Key, dates: seq<int>) {
    |own| == |dates| && forall i | 0 <= i < |own| :: own[i].key == key && own[i].date == dates[i]
  }

  ghost predicate RunsGoForward(own: seq<Entry>) {
    forall i | 0 <= i < |RunsOf(own)| && RunsOf(own)[i].resolved.Some? :: RunsOf(own)[i].from <= RunsOf(own)[i].resolved.value
  }

  /** Nothing moves but one unit out at leg `i` and back at leg `j`. */
  function Dip(key: Key, dates: seq<int>, i: nat, j: nat): (own: seq<Entry>)
    ensures |own| == |dates|
    ensures forall k | 0 <= k < |dates| ::
              own[k] == Entry(key, if k == i then -1 else if k == j then 1 else 0, dates[k])
  {
    seq(|dates|, k requires 0 <= k < |dates| => Entry(key, if k == i then -1 else if k == j then 1 else 0, dates[k]))
  }

  lemma {:induction false} DipBalance(key: Key, dates: seq<int>, i: nat, j: nat, n: nat)
    requires i < j < |dates| && n <= |dates|
    ensures BalanceAt(Dip(key, dates, i, j), n) == if i < n <= j then -1 else 0
  {
    if n > 0 {
      DipBalance(key, dates, i, j, n - 1);
    }
  }

  lemma {:induction false} DipIsNegative(key: Key, dates: seq<int>, i: nat, j: nat, m: nat)
    requires i < j < |dates| && m < |dates|
    ensures NegativeAfter(Dip(key, dates, i, j), m) <==> i <= m < j
  {
    DipBalance(key, dates, i, j, m + 1);
  }

  lemma {:induction false} DipBounds(own: seq<Entry>, run: Run, i: nat, j: nat)
    requires i < j < |own| && IsNegativeRun(own, run) && run.start <= i < EndOf(own, run)
    requires forall m | 0 <= m < |own| :: NegativeAfter(own, m) <==> i <= m < j
    ensures run.from == own[i].date && run.resolved == Some(own[j].date)
  {
    assert NegativeAfter(own, run.start);
    assert !NegativeAfter(own, j);
    assert EndOf(own, run) <= j;
  }

  /** The dip is one run, from leg `i` to leg `j`. */
  lemma {:induction false} DipIsARun(key: Key, dates: seq<int>, i: nat, j: nat) returns (r: nat)
    requires i < j < |dates|
    ensures var runs := RunsOf(Dip(key, dates, i, j));
      r < |runs| && runs[r].from == dates[i] && runs[r].resolved == Some(dates[j])
  {
    var own := Dip(key, dates, i, j);
    forall m | 0 <= m < |own|
      ensures NegativeAfter(own, m) <==> i <= m < j
    {
      DipIsNegative(key, dates, i, j, m);
    }
    RunsAreTheNegativeRuns(own);
    var runs := RunsOf(own);
    assert NegativeAfter(own, i);
    r :| 0 <= r < |runs| && runs[r].start <= i < EndOf(own, runs[r]);
    DipBounds(own, runs[r], i, j);
  }

  /** Whatever one key's legs come to, no run of theirs ends before it starts: this
      holds exactly of dates that do not go back. */
  lemma {:induction false} RunsGoForwardIff(key: Key, dates: seq<int>)
    ensures (forall own | HaveDates(own, key, dates) :: RunsGoForward(own)) <==> NonDecreasing(dates)
  {
    if NonDecreasing(dates) {
      forall own | HaveDates(own, key, dates)
        ensures RunsGoForward(own)
      {
        RunsFollowInTime(own);
      }
    } else {
      var i, j :| 0 <= i < j < |dates| && dates[i] > dates[j];
      var r := DipIsARun(key, dates, i, j);
      assert HaveDates(Dip(key, dates, i, j), key, dates);
      assert !RunsGoForward(Dip(key, dates, i, j));
    }
  }

  // ---- Whole journals -------------------------------------------------------------------

  /** A journal in replay order, with the effective dates given. */
  ghost predicate IsDated(events: seq<Event>, dates: seq<int>) {
    |events| == |dates| && forall i | 0 <= i < |events| :: events[i].place == i && events[i].effective == Some(dates[i])
  }

  ghost predicate SpansGoForward(a: Assessment) {
    forall i | 0 <= i < |a.spans| && a.spans[i].resolved.Some? :: a.spans[i].from <= a.spans[i].resolved.value
  }

  lemma {:induction false} PlacedIsReplayed(events: seq<Event>)
    requires forall i | 0 <= i < |events| :: events[i].place == i
    ensures Replayed(events) == events
  {
    SortKeepsSorted(Placed(events));
    assert Items(Placed(events)) == events;
  }

  lemma {:induction false} DatedGoForward(events: seq<Event>, dates: seq<int>, policy: Policy, a: Assessment)
    requires IsDated(events, dates) && NonDecreasing(dates) && IsAssessmentOf(events, policy, Ok(a))
    ensures SpansGoForward(a)
  {
    PlacedIsReplayed(events);
    EntriesAreChronological(events);
    forall i | 0 <= i < |a.spans| && a.spans[i].resolved.Some?
      ensures a.spans[i].from <= a.spans[i].resolved.value
    {
      var key := a.spans[i].key;
      OwnIsChronological(EntriesOf(events), key);
      SpansFollowInTime(EntriesOf(events), a.financing, policy, a.spans, key);
      FilterMember(a.spans, WithKey(key), a.spans[i]);
      var own := Filter(a.spans, WithKey(key));
      var k :| 0 <= k < |own| && own[k] == a.spans[i];
    }
  }

  function CashLeg(key: Key, amount: PostedMinor): Leg {
    Leg(Cash, key.account, Some(Money(amount, key.currency)))
  }

  /** The dip as a journal: one unit paid out at event `i` and back in at event `j`. */
  function DipJournal(key: Key, dates: seq<int>, i: nat, j: nat): (events: seq<Event>)
    ensures |events| == |dates|
    ensures forall k | 0 <= k < |dates| ::
              events[k] == Event(k, k, Some(dates[k]), key.account, false,
                                 if k == i then [CashLeg(key, -1)] else if k == j then [CashLeg(key, 1)] else [])
  {
    seq(|dates|, k requires 0 <= k < |dates| =>
      Event(k, k, Some(dates[k]), key.account, false,
            if k == i then [CashLeg(key, -1)] else if k == j then [CashLeg(key, 1)] else []))
  }

  lemma {:induction false} OneLeg(key: Key, amount: PostedMinor, date: int)
    ensures EntriesOfLegs([CashLeg(key, amount)], date) == [Entry(key, amount, date)]
    ensures EntriesOfLegs([], date) == []
  {
    assert [CashLeg(key, amount)][..0] == [];
  }

  /** What event `k` of the dip posts. */
  function DipLegs(key: Key, dates: seq<int>, i: nat, j: nat, k: nat): seq<Entry>
    requires i < j < |dates|
  {
    if k == i then [Entry(key, -1, dates[i])] else if k == j then [Entry(key, 1, dates[j])] else []
  }

  lemma {:induction false} DipEventPosts(key: Key, dates: seq<int>, i: nat, j: nat, k: nat)
    requires i < j < |dates| && k < |dates|
    ensures var e := DipJournal(key, dates, i, j)[k];
      EntriesOfLegs(e.legs, DateOf(e)) == DipLegs(key, dates, i, j, k)
  {
    OneLeg(key, -1, dates[k]);
    OneLeg(key, 1, dates[k]);
  }

  lemma {:induction false} EntriesStep(events: seq<Event>, n: nat)
    requires 0 < n <= |events|
    ensures EntriesOf(events[..n]) == EntriesOf(events[..n - 1]) + EntriesOfLegs(events[n - 1].legs, DateOf(events[n - 1]))
  {
    assert events[..n][..n - 1] == events[..n - 1];
  }

  function DipSoFar(key: Key, dates: seq<int>, i: nat, j: nat, n: nat): seq<Entry>
    requires i < j < |dates|
  {
    var out, back := Entry(key, -1, dates[i]), Entry(key, 1, dates[j]);
    if n <= i then [] else if n <= j then [out] else [out, back]
  }

  lemma {:induction false} DipGrows(key: Key, dates: seq<int>, i: nat, j: nat, k: nat)
    requires i < j < |dates| && k < |dates|
    ensures DipSoFar(key, dates, i, j, k + 1) == DipSoFar(key, dates, i, j, k) + DipLegs(key, dates, i, j, k)
  {
  }

  lemma {:induction false} DipEntries(key: Key, dates: seq<int>, i: nat, j: nat, n: nat)
    requires i < j < |dates| && n <= |dates|
    ensures EntriesOf(DipJournal(key, dates, i, j)[..n]) == DipSoFar(key, dates, i, j, n)
  {
    if n > 0 {
      DipEntries(key, dates, i, j, n - 1);
      EntriesStep(DipJournal(key, dates, i, j), n);
      DipEventPosts(key, dates, i, j, n - 1);
      DipGrows(key, dates, i, j, n - 1);
    }
  }

  lemma {:induction false} NoFinancing(events: seq<Event>)
    requires forall k | 0 <= k < |events| :: !events[k].isMarginInterest
    ensures FinancingOf(events) == {}
  {
    if events != [] {
      NoFinancing(events[..|events| - 1]);
    }
  }

  /** Two legs of one key, one unit out and back. */
  lemma {:induction false} TwoLegs(out: Entry, back: Entry, policy: Policy)
    requires out.key == back.key && out.amount == -1 && back.amount == 1
    ensures Own([out, back], out.key) == [out, back]
    ensures forall key | key != out.key :: Own([out, back], key) == []
    ensures RunsOf([out, back]) == [Run(0, Some(1), out.date, Some(back.date))]
    ensures !Overflows([out, back], 0) && !Overflows([out, back], 1)
  {
    assert [] + [out] == [out] && [out] + [back] == [out, back];
    ScanSnoc([], out);
    ScanSnoc([out], back);
    forall key
      ensures Own([out], key) == if key == out.key then [out] else []
      ensures Own([out, back], key) == if key == out.key then [out, back] else []
    {
      OwnSnoc([], out, key);
      OwnSnoc([out], back, key);
    }
    ScanBalance([out]);
    ScanBalance([out, back]);
    assert [out, back][..1] == [out] && [out, back][..2] == [out, back];
  }

  lemma {:induction false} OneSpan(out: Entry, back: Entry, policy: Policy)
    requires out.key == back.key && out.amount == -1 && back.amount == 1
    ensures AreTheSpans([out, back], {}, policy, [Classify(out.key, out.date, Some(back.date), {}, policy)])
  {
    TwoLegs(out, back, policy);
    var span := Classify(out.key, out.date, Some(back.date), {}, policy);
    forall key
      ensures Filter([span], WithKey(key)) == OwnSpans(Own([out, back], key), key, {}, policy)
    {
      FilterSnoc([], span, WithKey(key));
      assert [] + [span] == [span];
      var xs := SpansOfRuns(key, RunsOf(Own([out, back], key)), {}, policy);
      if key == out.key {
        assert xs == [Ranked(span)];
        SortKeepsSorted(xs);
        assert Items(xs) == [span];
      } else {
        assert RunsOf([]) == [];
        assert xs == [];
      }
    }
  }

  lemma {:induction false} AssessedAs(events: seq<Event>, entries: seq<Entry>, policy: Policy, spans: seq<Span>)
    requires Replayed(events) == events && Dated(events)
    requires EntriesOf(events) == entries && forall n | 0 <= n < |entries| :: !Overflows(entries, n)
    requires FinancingOf(events) == {} && AreTheSpans(entries, {}, policy, spans)
    ensures IsAssessmentOf(events, policy, Ok(Assessment(policy, spans, {})))
  {
  }

  lemma {:induction false} DipIsUnfinanced(key: Key, dates: seq<int>, i: nat, j: nat)
    requires i < j < |dates|
    ensures Dated(DipJournal(key, dates, i, j)) && FinancingOf(DipJournal(key, dates, i, j)) == {}
  {
    NoFinancing(DipJournal(key, dates, i, j));
  }

  lemma {:induction false} DipIsRead(key: Key, dates: seq<int>, i: nat, j: nat)
    requires i < j < |dates|
    ensures Replayed(DipJournal(key, dates, i, j)) == DipJournal(key, dates, i, j)
    ensures EntriesOf(DipJournal(key, dates, i, j)) == [Entry(key, -1, dates[i]), Entry(key, 1, dates[j])]
  {
    var events := DipJournal(key, dates, i, j);
    PlacedIsReplayed(events);
    DipEntries(key, dates, i, j, |dates|);
    assert events[..|dates|] == events;
  }

  /** The dip is assessed as one span, resolved on the date of its second event. */
  lemma {:induction false} DipIsAssessed(key: Key, dates: seq<int>, i: nat, j: nat, policy: Policy)
    requires i < j < |dates|
    ensures IsAssessmentOf(DipJournal(key, dates, i, j), policy,
                           Ok(Assessment(policy, [Classify(key, dates[i], Some(dates[j]), {}, policy)], {})))
  {
    var out, back := Entry(key, -1, dates[i]), Entry(key, 1, dates[j]);
    DipIsRead(key, dates, i, j);
    DipIsUnfinanced(key, dates, i, j);
    TwoLegs(out, back, policy);
    OneSpan(out, back, policy);
    AssessedAs(DipJournal(key, dates, i, j), [out, back], policy, [Classify(key, dates[i], Some(dates[j]), {}, policy)]);
  }

  /** No journal with these dates is assessed with a span that ends before it starts. */
  ghost predicate AlwaysForward(dates: seq<int>) {
    forall events, policy, a | IsDated(events, dates) && IsAssessmentOf(events, policy, Ok(a)) :: SpansGoForward(a)
  }

  lemma {:induction false} ForwardDatesStayForward(dates: seq<int>)
    requires NonDecreasing(dates)
    ensures AlwaysForward(dates)
  {
    forall events, policy, a | IsDated(events, dates) && IsAssessmentOf(events, policy, Ok(a))
      ensures SpansGoForward(a)
    {
      DatedGoForward(events, dates, policy, a);
    }
  }

  lemma {:induction false} BackwardSpan(span: Span, policy: Policy)
    requires span.resolved.Some? && span.from > span.resolved.value
    ensures !SpansGoForward(Assessment(policy, [span], {}))
  {
    assert [span][0] == span;
  }

  lemma {:induction false} RefutesForward(events: seq<Event>, dates: seq<int>, policy: Policy, a: Assessment)
    requires IsDated(events, dates) && IsAssessmentOf(events, policy, Ok(a)) && !SpansGoForward(a)
    ensures !AlwaysForward(dates)
  {
  }

  lemma {:induction false} BackwardDatesFail(dates: seq<int>, i: nat, j: nat)
    requires i < j < |dates| && dates[i] > dates[j]
    ensures !AlwaysForward(dates)
  {
    var key, policy := Key(1, Rub), Policy(0);
    var span := Classify(key, dates[i], Some(dates[j]), {}, policy);
    DipIsAssessed(key, dates, i, j, policy);
    BackwardSpan(span, policy);
    RefutesForward(DipJournal(key, dates, i, j), dates, policy, Assessment(policy, [span], {}));
  }

  /** Over all journals: spans never end before they start exactly when the effective
      dates do not go back in replay order. */
  lemma {:induction false} SpansGoForwardIff(dates: seq<int>)
    ensures AlwaysForward(dates) <==> NonDecreasing(dates)
  {
    if NonDecreasing(dates) {
      ForwardDatesStayForward(dates);
    } else {
      var i, j :| 0 <= i < j < |dates| && dates[i] > dates[j];
      BackwardDatesFail(dates, i, j);
    }
  }

  /** Two events suffice: one that pays out, and one placed behind it whose effective
      date is earlier. The span ends before it starts and, being of no length at all,
      is taken for a settlement deficit however narrow the window is. */
  lemma {:induction false} SpanMayEndBeforeItStarts(key: Key, start: int, end: int, policy: Policy)
    requires end < start
    ensures IsAssessmentOf(
              [Event(0, 0, Some(start), key.account, false, [CashLeg(key, -1)]),
               Event(1, 1, Some(end), key.account, false, [CashLeg(key, 1)])],
              policy,
              Ok(Assessment(policy, [Span(key, start, Some(end), TemporarySettlementDeficit)], {})))
  {
    DipIsAssessed(key, [start, end], 0, 1, policy);
    assert DipJournal(key, [start, end], 0, 1)
        == [Event(0, 0, Some(start), key.account, false, [CashLeg(key, -1)]),
            Event(1, 1, Some(end), key.account, false, [CashLeg(key, 1)])];
  }
}
