/** An assessment said in dates and amounts: what each span is called, in what order the
    spans come, whose reports are blocked, and when an account is left below zero. */
module PerimeterVerdicts {
  import opened Outcomes
  import opened Money
  import opened Sums
  import opened NegativeRuns
  import opened StableSorting
  import opened Perimeter
  import opened PerimeterLaws

  // ---- Classes ---------------------------------------------------------------------------

  /** The span ended, and no later than the window after it began. */
  predicate IsBrief(span: Span, window: nat) {
    span.resolved.Some? && span.resolved.value - span.from <= window
  }

  lemma {:induction false} OwnSpansAreClassified(own: seq<Entry>, key: Key, financing: set<int>, policy: Policy, span: Span)
    requires span in OwnSpans(own, key, financing, policy)
    ensures span == Classify(key, span.from, span.resolved, financing, policy)
  {
    var xs := SpansOfRuns(key, RunsOf(own), financing, policy);
    SortIsPermutation(xs);
    var k :| 0 <= k < |Items(Sort(xs))| && Items(Sort(xs))[k] == span;
    assert Sort(xs)[k] in multiset(xs);
    var i :| 0 <= i < |xs| && xs[i] == Sort(xs)[k];
  }

  lemma {:induction false} SpanIsClassified(events: seq<Event>, policy: Policy, a: Assessment, span: Span)
    requires IsAssessmentOf(events, policy, Ok(a)) && span in a.spans
    ensures span == Classify(span.key, span.from, span.resolved, FinancingOf(Replayed(events)), policy)
  {
    FilterMember(a.spans, WithKey(span.key), span);
    OwnSpansAreClassified(Own(EntriesOf(Replayed(events)), span.key), span.key, a.financing, policy, span);
  }

  /** The class of every span of every assessed journal. Credit is recognised first: a
      span of an account that was charged margin interest is a margin liability however
      brief it was. */
  lemma {:induction false} SpansAreCalled(events: seq<Event>, policy: Policy, a: Assessment, span: Span)
    requires IsAssessmentOf(events, policy, Ok(a)) && span in a.spans
    ensures span.classification.UnsupportedMarginLiability? <==> IsCharged(events, span.key.account)
    ensures span.classification.TemporarySettlementDeficit?
       <==> !IsCharged(events, span.key.account) && IsBrief(span, policy.settlementWindowDays)
    ensures span.classification.UnclassifiedNegativeCash?
       <==> !IsCharged(events, span.key.account) && !IsBrief(span, policy.settlementWindowDays)
  {
    SpanIsClassified(events, policy, a, span);
    FinancingIsChargedInReplay(events, span.key.account);
  }

  /** Reports of an account are blocked exactly where it has a span and was charged margin
      interest, or a span that is unresolved or longer than the window. */
  lemma {:induction false} ReportsAreBlockedIff(events: seq<Event>, policy: Policy, a: Assessment, account: int)
    requires IsAssessmentOf(events, policy, Ok(a))
    ensures BlocksPeriodReports(a, account)
       <==> exists span | span in a.spans && span.key.account == account ::
              IsCharged(events, account) || !IsBrief(span, policy.settlementWindowDays)
  {
    forall span | span in a.spans && span.key.account == account
      ensures span.classification.BlocksReports() <==> IsCharged(events, account) || !IsBrief(span, policy.settlementWindowDays)
    {
      SpansAreCalled(events, policy, a, span);
    }
    if span :| span in a.spans && span.key.account == account && (IsCharged(events, account) || !IsBrief(span, policy.settlementWindowDays)) {
      var i :| 0 <= i < |a.spans| && a.spans[i] == span;
    }
  }

  /** The spans come by start, then by account, then by currency in its declared order. */
  lemma {:induction false} SpansComeInOrder(events: seq<Event>, policy: Policy, a: Assessment, i: nat, j: nat)
    requires IsAssessmentOf(events, policy, Ok(a)) && i < j < |a.spans|
    ensures a.spans[i].from <= a.spans[j].from
    ensures a.spans[i].from == a.spans[j].from ==> a.spans[i].key.account <= a.spans[j].key.account
    ensures a.spans[i].from == a.spans[j].from && a.spans[i].key.account == a.spans[j].key.account
        ==> CurrencyRank(a.spans[i].key.currency) <= CurrencyRank(a.spans[j].key.currency)
  {
    assert Le(RankOf(a.spans[i]), RankOf(a.spans[j]));
  }

  // ---- Cash ------------------------------------------------------------------------------

  /** What a leg moves on an account and currency: nothing if it counts securities. */
  function LegCash(key: Key): Leg -> int {
    (leg: Leg) =>
      if leg.kind != SecurityQuantity && leg.account == key.account && leg.money.Some? && leg.money.value.currency == key.currency
      then leg.money.value.amount as int
      else 0
  }

  ghost function EventCash(key: Key): Event -> int {
    (event: Event) => SumOf(event.legs, LegCash(key))
  }

  lemma {:induction false} BalanceSnoc(own: seq<Entry>, leg: Entry)
    ensures Balance(own + [leg]) == Balance(own) + leg.amount as int
  {
    BalancePrefix(own, leg, |own|);
  }

  lemma {:induction false} LegsMoveCash(legs: seq<Leg>, date: int, key: Key)
    ensures Balance(Own(EntriesOfLegs(legs, date), key)) == SumOf(legs, LegCash(key))
  {
    if legs != [] {
      var init, last := legs[..|legs| - 1], legs[|legs| - 1];
      LegsMoveCash(init, date, key);
      if CashEffect(last).Some? {
        var entry := Entry(Key(last.account, CashEffect(last).value.currency), CashEffect(last).value.amount, date);
        OwnSnoc(EntriesOfLegs(init, date), entry, key);
        BalanceSnoc(Own(EntriesOfLegs(init, date), key), entry);
      }
    }
  }

  lemma {:induction false} BalanceConcat(own: seq<Entry>, more: seq<Entry>)
    ensures Balance(own + more) == Balance(own) + Balance(more)
  {
    if more == [] {
      assert own + more == own;
    } else {
      var init, last := more[..|more| - 1], more[|more| - 1];
      BalanceConcat(own, init);
      BalanceSnoc(init, last);
      BalanceSnoc(own + init, last);
      assert more == init + [last] && own + more == own + init + [last];
    }
  }

  lemma {:induction false} EventsMoveCash(events: seq<Event>, key: Key)
    ensures Balance(Own(EntriesOf(events), key)) == SumOf(events, EventCash(key))
  {
    if events != [] {
      var init, last := events[..|events| - 1], events[|events| - 1];
      EventsMoveCash(init, key);
      LegsMoveCash(last.legs, DateOf(last), key);
      OwnConcat(EntriesOf(init), EntriesOfLegs(last.legs, DateOf(last)), key);
      BalanceConcat(Own(EntriesOf(init), key), Own(EntriesOfLegs(last.legs, DateOf(last)), key));
    }
  }

  lemma {:induction false} ReplayMovesTheSameCash(events: seq<Event>, key: Key)
    ensures SumOf(Replayed(events), EventCash(key)) == SumOf(events, EventCash(key))
  {
    SortItems(Placed(events));
    assert Items(Placed(events)) == events;
    SumIsOrderFree(Replayed(events), events, EventCash(key));
  }

  /** An account and currency has one unresolved span if all the cash its journal moved
      comes to less than nothing, and none otherwise. */
  lemma {:induction false} LeftNegativeIffCashIs(events: seq<Event>, policy: Policy, a: Assessment, key: Key)
    requires IsAssessmentOf(events, policy, Ok(a))
    ensures |Filter(Filter(a.spans, WithKey(key)), IsUnresolved())| == if SumOf(events, EventCash(key)) < 0 then 1 else 0
  {
    var entries := EntriesOf(Replayed(events));
    OneUnresolvedIffNegative(entries, a.financing, policy, a.spans, key);
    EventsMoveCash(Replayed(events), key);
    ReplayMovesTheSameCash(events, key);
  }
}
