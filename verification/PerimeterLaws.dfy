/** What an assessment guarantees over whole journals. */
module PerimeterLaws {
  import opened Outcomes
  import opened Money
  import opened NegativeRuns
  import opened StableSorting
  import opened Perimeter

  lemma {:induction false} FilterMember<T>(xs: seq<T>, p: T -> bool, x: T)
    ensures x in Filter(xs, p) <==> x in xs && p(x)
  {
    if xs != [] {
      FilterMember(xs[..|xs| - 1], p, x);
      assert xs == xs[..|xs| - 1] + [xs[|xs| - 1]];
    }
  }

  // ---- Unresolved spans -----------------------------------------------------------

  function IsUnresolved(): Span -> bool {
    (span: Span) => span.resolved.None?
  }

  function IsUnresolvedKeyed(): Keyed<Span> -> bool {
    (x: Keyed<Span>) => x.item.resolved.None?
  }

  lemma {:induction false} NoneUnresolved(xs: seq<Keyed<Span>>)
    requires forall i | 0 <= i < |xs| :: xs[i].item.resolved.Some?
    ensures Filter(xs, IsUnresolvedKeyed()) == []
  {
    if xs != [] {
      NoneUnresolved(xs[..|xs| - 1]);
    }
  }

  /** A key has one unresolved span if its final balance is negative, and none if it is not. */
  lemma {:induction false} OneUnresolvedIffNegative(entries: seq<Entry>, financing: set<int>, policy: Policy, spans: seq<Span>, key: Key)
    requires AreTheSpans(entries, financing, policy, spans)
    ensures |Filter(Filter(spans, WithKey(key)), IsUnresolved())| == if Balance(Own(entries, key)) < 0 then 1 else 0
  {
    var own := Own(entries, key);
    var scan, xs := ScanOf(own), SpansOfRuns(key, RunsOf(own), financing, policy);
    ScanBalance(own);
    ScanFindsRuns(own);
    var closed := SpansOfRuns(key, scan.closed, financing, policy);
    forall i | 0 <= i < |closed|
      ensures closed[i].item.resolved.Some?
    {
      assert IsNegativeRun(own, scan.closed[i]);
    }
    NoneUnresolved(closed);
    if scan.open.Some? {
      var last := Ranked(Classify(key, scan.open.value.1, None, financing, policy));
      assert xs == closed + [last];
      FilterSnoc(closed, last, IsUnresolvedKeyed());
    } else {
      assert xs == closed;
    }
    SortFilter(xs, IsUnresolvedKeyed());
    SortIsPermutation(Filter(xs, IsUnresolvedKeyed()));
    ItemsFilter(Sort(xs), IsUnresolvedKeyed(), IsUnresolved());
  }

  // ---- Dates -----------------------------------------------------------------------

  ghost predicate Chronological(entries: seq<Entry>) {
    forall i, j | 0 <= i < j < |entries| :: entries[i].date <= entries[j].date
  }

  lemma {:induction false} OwnIsChronological(entries: seq<Entry>, key: Key)
    requires Chronological(entries)
    ensures Chronological(Own(entries, key))
    ensures forall leg | leg in Own(entries, key) :: leg in entries
  {
    if entries != [] {
      var init, last := entries[..|entries| - 1], entries[|entries| - 1];
      OwnIsChronological(init, key);
      forall leg | leg in Own(init, key)
        ensures leg.date <= last.date
      {
        assert leg in init;
      }
    }
  }

  lemma {:induction false} LegsShareADate(legs: seq<Leg>, date: int)
    ensures forall i | 0 <= i < |EntriesOfLegs(legs, date)| :: EntriesOfLegs(legs, date)[i].date == date
  {
    if legs != [] {
      LegsShareADate(legs[..|legs| - 1], date);
    }
  }

  lemma {:induction false} EntryComesFromEvent(events: seq<Event>, i: nat) returns (k: nat)
    requires i < |EntriesOf(events)|
    ensures k < |events| && EntriesOf(events)[i].date == DateOf(events[k])
  {
    var last := |events| - 1;
    var before := EntriesOf(events[..last]);
    LegsShareADate(events[last].legs, DateOf(events[last]));
    if i < |before| {
      k := EntryComesFromEvent(events[..last], i);
    } else {
      k := last;
    }
  }

  /** Where replay order agrees with effective dates, so does the order of the legs. */
  lemma {:induction false} EntriesAreChronological(events: seq<Event>)
    requires forall i, j | 0 <= i < j < |events| :: DateOf(events[i]) <= DateOf(events[j])
    ensures Chronological(EntriesOf(events))
  {
    if events != [] {
      var last := |events| - 1;
      var before, legs := EntriesOf(events[..last]), EntriesOfLegs(events[last].legs, DateOf(events[last]));
      EntriesAreChronological(events[..last]);
      LegsShareADate(events[last].legs, DateOf(events[last]));
      var all: seq<Entry> := before + legs;
      forall i, j | 0 <= i < j < |all|
        ensures all[i].date <= all[j].date
      {
        if i < |before| <= j {
          var k := EntryComesFromEvent(events[..last], i);
        }
      }
    }
  }

  predicate EndsBefore(run: Run, next: Run) {
    run.resolved.Some? && run.resolved.value <= next.from
  }

  ghost predicate FollowInTime(runs: seq<Run>) {
    && (forall i | 0 <= i < |runs| && runs[i].resolved.Some? :: runs[i].from <= runs[i].resolved.value)
    && (forall i, j | 0 <= i < j < |runs| :: EndsBefore(runs[i], runs[j]))
  }

  lemma {:induction false} RunGoesForward(own: seq<Entry>, i: nat)
    requires Chronological(own) && i < |RunsOf(own)| && RunsOf(own)[i].resolved.Some?
    ensures RunsOf(own)[i].from <= RunsOf(own)[i].resolved.value
  {
    RunsAreTheNegativeRuns(own);
    assert IsNegativeRun(own, RunsOf(own)[i]);
  }

  lemma {:induction false} RunFollows(own: seq<Entry>, i: nat, j: nat)
    requires Chronological(own) && i < j < |RunsOf(own)|
    ensures EndsBefore(RunsOf(own)[i], RunsOf(own)[j])
  {
    RunsAreTheNegativeRuns(own);
    assert IsNegativeRun(own, RunsOf(own)[i]) && IsNegativeRun(own, RunsOf(own)[j]);
    assert RunsOf(own)[i].end.value < RunsOf(own)[j].start;
  }

  /** Over legs in date order no run ends before it starts, and none starts before
      the one ahead of it ended. */
  lemma {:induction false} RunsFollowInTime(own: seq<Entry>)
    requires Chronological(own)
    ensures FollowInTime(RunsOf(own))
  {
    var runs := RunsOf(own);
    forall i | 0 <= i < |runs| && runs[i].resolved.Some?
      ensures runs[i].from <= runs[i].resolved.value
    {
      RunGoesForward(own, i);
    }
    forall i, j | 0 <= i < j < |runs|
      ensures EndsBefore(runs[i], runs[j])
    {
      RunFollows(own, i, j);
    }
  }

  /** Where one key's own legs are in date order its spans come out in order, none
      ends before it starts, and none starts before the one ahead of it ended. */
  lemma {:induction false} SpansFollowInTime(entries: seq<Entry>, financing: set<int>, policy: Policy, spans: seq<Span>, key: Key)
    requires AreTheSpans(entries, financing, policy, spans) && Chronological(Own(entries, key))
    ensures var own := Filter(spans, WithKey(key));
            && own == Items(SpansOfRuns(key, RunsOf(Own(entries, key)), financing, policy))
            && (forall i | 0 <= i < |own| && own[i].resolved.Some? :: own[i].from <= own[i].resolved.value)
            && (forall i, j | 0 <= i < j < |own| :: own[i].resolved.Some? && own[i].resolved.value <= own[j].from)
  {
    var runs := RunsOf(Own(entries, key));
    var xs := SpansOfRuns(key, runs, financing, policy);
    RunsFollowInTime(Own(entries, key));
    forall i, j | 0 <= i < j < |xs|
      ensures Le(xs[i].rank, xs[j].rank) && EndsBefore(runs[i], runs[j])
    {
      assert runs[i].from <= runs[j].from;
    }
    SortKeepsSorted(xs);
  }

  // ---- One account at a time ----------------------------------------------------------

  /** The blocking verdict, key by key. */
  lemma {:induction false} BlocksByKey(spans: seq<Span>, account: int)
    ensures (exists i | 0 <= i < |spans| :: spans[i].key.account == account && spans[i].classification.BlocksReports())
       <==> exists currency, span | span in Filter(spans, WithKey(Key(account, currency))) :: span.classification.BlocksReports()
  {
    if i :| 0 <= i < |spans| && spans[i].key.account == account && spans[i].classification.BlocksReports() {
      FilterMember(spans, WithKey(Key(account, spans[i].key.currency)), spans[i]);
      assert spans[i] in Filter(spans, WithKey(Key(account, spans[i].key.currency)));
    }
    if currency, span :| span in Filter(spans, WithKey(Key(account, currency))) && span.classification.BlocksReports() {
      FilterMember(spans, WithKey(Key(account, currency)), span);
      var i :| 0 <= i < |spans| && spans[i] == span;
    }
  }

  ghost predicate SameVerdict(a: Assessment, a': Assessment, account: int) {
    && (forall currency :: Filter(a.spans, WithKey(Key(account, currency))) == Filter(a'.spans, WithKey(Key(account, currency))))
    && BlocksPeriodReports(a, account) == BlocksPeriodReports(a', account)
  }

  ghost predicate SameLegs(entries: seq<Entry>, entries': seq<Entry>, account: int) {
    forall currency :: Own(entries, Key(account, currency)) == Own(entries', Key(account, currency))
  }

  lemma {:induction false} OwnLegsDecide(
      entries: seq<Entry>, entries': seq<Entry>, a: Assessment, a': Assessment, account: int)
    requires AreTheSpans(entries, a.financing, a.policy, a.spans)
    requires AreTheSpans(entries', a'.financing, a'.policy, a'.spans)
    requires a.policy == a'.policy && (account in a.financing <==> account in a'.financing)
    requires SameLegs(entries, entries', account)
    ensures SameVerdict(a, a', account)
  {
    forall currency
      ensures Filter(a.spans, WithKey(Key(account, currency))) == Filter(a'.spans, WithKey(Key(account, currency)))
    {
      var key := Key(account, currency);
      var runs := RunsOf(Own(entries, key));
      assert SpansOfRuns(key, runs, a.financing, a.policy) == SpansOfRuns(key, runs, a'.financing, a'.policy);
    }
    BlocksByKey(a.spans, account);
    BlocksByKey(a'.spans, account);
  }

  /** Some event charges the account itself margin interest. */
  ghost predicate IsCharged(events: seq<Event>, account: int) {
    exists event | event in events :: event.isMarginInterest && event.account == account
  }

  lemma {:induction false} FinancingIsCharged(events: seq<Event>, account: int)
    ensures account in FinancingOf(events) <==> IsCharged(events, account)
  {
    if events != [] {
      var init, last := events[..|events| - 1], events[|events| - 1];
      FinancingIsCharged(init, account);
      assert events == init + [last];
      assert forall event :: event in events <==> event in init || event == last;
    }
  }

  lemma {:induction false} ReplayedHasTheEvents(events: seq<Event>, event: Event)
    ensures event in Replayed(events) <==> event in events
  {
    SortItems(Placed(events));
    assert Items(Placed(events)) == events;
    assert event in multiset(Replayed(events)) <==> event in multiset(events);
  }

  lemma {:induction false} FinancingIsChargedInReplay(events: seq<Event>, account: int)
    ensures account in FinancingOf(Replayed(events)) <==> IsCharged(events, account)
  {
    FinancingIsCharged(Replayed(events), account);
    forall event
      ensures event in Replayed(events) <==> event in events
    {
      ReplayedHasTheEvents(events, event);
    }
  }

  lemma {:induction false} OwnConcat(entries: seq<Entry>, more: seq<Entry>, key: Key)
    ensures Own(entries + more, key) == Own(entries, key) + Own(more, key)
  {
    if more == [] {
      assert entries + more == entries;
    } else {
      var init, last := more[..|more| - 1], more[|more| - 1];
      OwnConcat(entries, init, key);
      OwnSnoc(entries + init, last, key);
      assert entries + more == entries + init + [last];
    }
  }

  /** Each of a key's own legs stands somewhere in the journal, behind the legs before it. */
  lemma {:induction false} OwnLegIsPosted(entries: seq<Entry>, key: Key, k: nat) returns (m: nat)
    requires k < |Own(entries, key)|
    ensures m < |entries| && entries[m].key == key
    ensures Own(entries[..m + 1], key) == Own(entries, key)[..k + 1]
  {
    var init, last := entries[..|entries| - 1], entries[|entries| - 1];
    if k < |Own(init, key)| {
      m := OwnLegIsPosted(init, key, k);
      assert init[..m + 1] == entries[..m + 1];
    } else {
      m := |entries| - 1;
      assert entries[..m + 1] == entries;
    }
  }

  lemma {:induction false} OwnUpTo(entries: seq<Entry>, n: nat) returns (k: nat)
    requires n < |entries|
    ensures var own := Own(entries, entries[n].key);
      k < |own| && Own(entries[..n + 1], entries[n].key) == own[..k + 1]
  {
    var key := entries[n].key;
    OwnSnoc(entries[..n], entries[n], key);
    assert entries[..n + 1] == entries[..n] + [entries[n]];
    OwnConcat(entries[..n + 1], entries[n + 1..], key);
    assert entries == entries[..n + 1] + entries[n + 1..];
    k := |Own(entries[..n], key)|;
  }

  /** A leg that overflows overflows in every journal with its key's legs. */
  lemma {:induction false} OverflowIsShared(entries: seq<Entry>, entries': seq<Entry>, n: nat) returns (m: nat)
    requires n < |entries'| && Overflows(entries', n)
    requires Own(entries, entries'[n].key) == Own(entries', entries'[n].key)
    ensures m < |entries| && Overflows(entries, m)
  {
    var k := OwnUpTo(entries', n);
    m := OwnLegIsPosted(entries, entries'[n].key, k);
  }

  /** An account's spans depend only on its own cash legs and on whether it was
      itself charged margin interest: whatever else a second journal holds, its
      spans for the account and whether its reports are blocked are the same.
      Another account may overflow there, and then there is no assessment at all. */
  lemma {:induction false} AccountsAreIsolated(
      events: seq<Event>, events': seq<Event>, policy: Policy, a: Assessment, r': Result<Assessment, Error>, account: int)
    requires IsAssessmentOf(events, policy, Ok(a)) && IsAssessmentOf(events', policy, r') && Dated(events')
    requires SameLegs(EntriesOf(Replayed(events)), EntriesOf(Replayed(events')), account)
    requires IsCharged(events, account) <==> IsCharged(events', account)
    ensures match r'
      case Ok(a') => SameVerdict(a, a', account)
      case Err(error) => error.BalanceOverflow? && error.key.account != account
  {
    var entries, entries' := EntriesOf(Replayed(events)), EntriesOf(Replayed(events'));
    match r'
    case Ok(a') =>
      FinancingIsChargedInReplay(events, account);
      FinancingIsChargedInReplay(events', account);
      OwnLegsDecide(entries, entries', a, a', account);
    case Err(error) =>
      var n: nat :| IsFirstOverflow(entries', n) && entries'[n].key == error.key;
      if error.key.account == account {
        assert error.key == Key(account, error.key.currency);
        var m := OverflowIsShared(entries, entries', n);
      }
  }

  // ---- Events that concern an account ----------------------------------------------------

  predicate MovesCashOf(leg: Leg, account: int) {
    CashEffect(leg).Some? && leg.account == account
  }

  predicate Concerns(event: Event, account: int) {
    || (event.isMarginInterest && event.account == account)
    || exists i | 0 <= i < |event.legs| :: MovesCashOf(event.legs[i], account)
  }

  lemma {:induction false} NoOwnLegs(legs: seq<Leg>, date: int, key: Key)
    requires forall i | 0 <= i < |legs| :: !MovesCashOf(legs[i], key.account)
    ensures Own(EntriesOfLegs(legs, date), key) == []
  {
    if legs != [] {
      var init, last := legs[..|legs| - 1], legs[|legs| - 1];
      assert forall i | 0 <= i < |init| :: init[i] == legs[i];
      NoOwnLegs(init, date, key);
      assert !MovesCashOf(last, key.account);
      if CashEffect(last).Some? {
        OwnSnoc(EntriesOfLegs(init, date), Entry(Key(last.account, CashEffect(last).value.currency), CashEffect(last).value.amount, date), key);
      }
    }
  }

  ghost predicate KeepsAccount(p: Event -> bool, account: int) {
    forall event | Concerns(event, account) :: p(event)
  }

  lemma {:induction false} OwnAfterFilter(events: seq<Event>, p: Event -> bool, key: Key)
    requires KeepsAccount(p, key.account)
    ensures Own(EntriesOf(Filter(events, p)), key) == Own(EntriesOf(events), key)
  {
    if events != [] {
      var init, last := events[..|events| - 1], events[|events| - 1];
      OwnAfterFilter(init, p, key);
      var legs := EntriesOfLegs(last.legs, DateOf(last));
      OwnConcat(EntriesOf(init), legs, key);
      if p(last) {
        var kept := Filter(init, p);
        assert (kept + [last])[..|kept|] == kept;
        OwnConcat(EntriesOf(kept), legs, key);
      } else {
        assert !Concerns(last, key.account);
        NoOwnLegs(last.legs, DateOf(last), key);
      }
    }
  }

  function ByItem(p: Event -> bool): Keyed<Event> -> bool {
    (x: Keyed<Event>) => p(x.item)
  }

  lemma {:induction false} PlacedFilter(events: seq<Event>, p: Event -> bool)
    ensures Placed(Filter(events, p)) == Filter(Placed(events), ByItem(p))
  {
    if events != [] {
      var init, last := events[..|events| - 1], events[|events| - 1];
      PlacedFilter(init, p);
      var x := Keyed(Single(last.place), last);
      assert Placed(events) == Placed(init) + [x];
      FilterSnoc(Placed(init), x, ByItem(p));
      assert p(last) ==> Placed(Filter(init, p) + [last]) == Placed(Filter(init, p)) + [x];
    }
  }

  /** Dropping events leaves the others in their replay order. */
  lemma {:induction false} ReplayedFilter(events: seq<Event>, p: Event -> bool)
    ensures Replayed(Filter(events, p)) == Filter(Replayed(events), p)
  {
    PlacedFilter(events, p);
    SortFilter(Placed(events), ByItem(p));
    ItemsFilter(Sort(Placed(events)), ByItem(p), p);
  }

  lemma {:induction false} FilterKeepsCharges(events: seq<Event>, p: Event -> bool, account: int)
    requires KeepsAccount(p, account)
    ensures IsCharged(Filter(events, p), account) <==> IsCharged(events, account)
  {
    forall event: Event | event.isMarginInterest && event.account == account
      ensures event in Filter(events, p) <==> event in events
    {
      assert Concerns(event, account);
      FilterMember(events, p, event);
    }
  }

  /** Leaving out any events that neither move the account's cash nor charge it
      margin interest leaves its spans and its verdict as they were. */
  lemma {:induction false} UnconcernedEventsDoNotMatter(
      events: seq<Event>, p: Event -> bool, policy: Policy, a: Assessment, r': Result<Assessment, Error>, account: int)
    requires KeepsAccount(p, account)
    requires IsAssessmentOf(events, policy, Ok(a)) && IsAssessmentOf(Filter(events, p), policy, r')
    ensures match r'
      case Ok(a') => SameVerdict(a, a', account)
      case Err(error) => error.BalanceOverflow? && error.key.account != account
  {
    var kept := Filter(events, p);
    forall i | 0 <= i < |kept|
      ensures kept[i].effective.Some?
    {
      assert kept[i] in kept;
    }
    ReplayedFilter(events, p);
    forall currency
      ensures Own(EntriesOf(Replayed(events)), Key(account, currency)) == Own(EntriesOf(Replayed(kept)), Key(account, currency))
    {
      OwnAfterFilter(Replayed(events), p, Key(account, currency));
    }
    FilterKeepsCharges(events, p, account);
    AccountsAreIsolated(events, kept, policy, a, r', account);
  }

  // ---- The settlement window -------------------------------------------------------------

  function RankedRuns(key: Key, runs: seq<Run>): (xs: seq<Keyed<Run>>)
    ensures |xs| == |runs|
    ensures forall i | 0 <= i < |runs| ::
              xs[i] == Keyed(Rank(runs[i].from, key.account, CurrencyRank(key.currency)), runs[i])
  {
    seq(|runs|, i requires 0 <= i < |runs| => Keyed(Rank(runs[i].from, key.account, CurrencyRank(key.currency)), runs[i]))
  }

  function Classifier(key: Key, financing: set<int>, policy: Policy): Run -> Span {
    (run: Run) => Classify(key, run.from, run.resolved, financing, policy)
  }

  lemma {:induction false} OwnSpansAreClassifiedRuns(own: seq<Entry>, key: Key, financing: set<int>, policy: Policy)
    ensures var sorted := Sort(RankedRuns(key, RunsOf(own)));
            && |OwnSpans(own, key, financing, policy)| == |sorted|
            && forall i | 0 <= i < |sorted| ::
                 OwnSpans(own, key, financing, policy)[i] == Classifier(key, financing, policy)(sorted[i].item)
  {
    var bare, f := RankedRuns(key, RunsOf(own)), Classifier(key, financing, policy);
    assert MapItems(bare, f) == SpansOfRuns(key, RunsOf(own), financing, policy);
    SortMap(bare, f);
  }

  /** The same interval, blocking under the wider window only if it blocks under the narrower. */
  predicate SameIntervalRelaxed(narrow: Span, wide: Span) {
    && narrow.key == wide.key && narrow.from == wide.from && narrow.resolved == wide.resolved
    && (wide.classification.BlocksReports() ==> narrow.classification.BlocksReports())
  }

  ghost predicate Relaxed(narrow: seq<Span>, wide: seq<Span>) {
    |narrow| == |wide| && forall i | 0 <= i < |narrow| :: SameIntervalRelaxed(narrow[i], wide[i])
  }

  lemma {:induction false} WiderWindowRelaxes(own: seq<Entry>, key: Key, financing: set<int>, policy: Policy, wider: Policy)
    requires policy.settlementWindowDays <= wider.settlementWindowDays
    ensures Relaxed(OwnSpans(own, key, financing, policy), OwnSpans(own, key, financing, wider))
  {
    OwnSpansAreClassifiedRuns(own, key, financing, policy);
    OwnSpansAreClassifiedRuns(own, key, financing, wider);
  }

  lemma {:induction false} RelaxedBlocks(narrow: seq<Span>, wide: seq<Span>, span: Span)
    requires Relaxed(narrow, wide) && span in wide && span.classification.BlocksReports()
    ensures exists s | s in narrow :: s.classification.BlocksReports()
  {
    var i :| 0 <= i < |wide| && wide[i] == span;
    assert SameIntervalRelaxed(narrow[i], wide[i]);
    assert narrow[i] in narrow;
  }

  /** Widening the settlement window moves no end of any span, and blocks no
      account that was not blocked before. */
  lemma {:induction false} WiderWindowNeverBlocks(entries: seq<Entry>, a: Assessment, wider: Assessment)
    requires AreTheSpans(entries, a.financing, a.policy, a.spans)
    requires AreTheSpans(entries, wider.financing, wider.policy, wider.spans)
    requires a.financing == wider.financing && a.policy.settlementWindowDays <= wider.policy.settlementWindowDays
    ensures forall key :: Relaxed(Filter(a.spans, WithKey(key)), Filter(wider.spans, WithKey(key)))
    ensures forall account :: BlocksPeriodReports(wider, account) ==> BlocksPeriodReports(a, account)
  {
    forall key
      ensures Relaxed(Filter(a.spans, WithKey(key)), Filter(wider.spans, WithKey(key)))
    {
      WiderWindowRelaxes(Own(entries, key), key, a.financing, a.policy, wider.policy);
    }
    forall account | BlocksPeriodReports(wider, account)
      ensures BlocksPeriodReports(a, account)
    {
      BlocksByKey(wider.spans, account);
      BlocksByKey(a.spans, account);
      var currency, span :| span in Filter(wider.spans, WithKey(Key(account, currency))) && span.classification.BlocksReports();
      RelaxedBlocks(Filter(a.spans, WithKey(Key(account, currency))), Filter(wider.spans, WithKey(Key(account, currency))), span);
    }
  }

  // ---- One answer -------------------------------------------------------------------------

  lemma {:induction false} SameRankSameKey(a: Span, b: Span)
    requires RankOf(a) == RankOf(b)
    ensures a.key == b.key
  {
  }

  lemma {:induction false} LastOfFilter(spans: seq<Span>)
    requires spans != []
    ensures var last := spans[|spans| - 1];
            Filter(spans, WithKey(last.key)) == Filter(spans[..|spans| - 1], WithKey(last.key)) + [last]
  {
  }

  ghost predicate InSpanOrder(spans: seq<Span>) {
    forall i, j | 0 <= i < j < |spans| :: Le(RankOf(spans[i]), RankOf(spans[j]))
  }

  lemma {:induction false} MemberIsBelowLast(spans: seq<Span>, x: Span)
    requires InSpanOrder(spans) && x in spans
    ensures Le(RankOf(x), RankOf(spans[|spans| - 1]))
  {
    var i :| 0 <= i < |spans| && spans[i] == x;
  }

  ghost predicate SameByKey(xs: seq<Span>, ys: seq<Span>) {
    forall key :: Filter(xs, WithKey(key)) == Filter(ys, WithKey(key))
  }

  /** The last span of a list is in every list with the same spans by key. */
  lemma {:induction false} LastIsShared(xs: seq<Span>, ys: seq<Span>)
    requires xs != [] && SameByKey(xs, ys)
    ensures xs[|xs| - 1] in ys
  {
    var last := xs[|xs| - 1];
    LastOfFilter(xs);
    assert Filter(xs, WithKey(last.key)) == Filter(ys, WithKey(last.key));
    FilterMember(ys, WithKey(last.key), last);
  }

  lemma {:induction false} SameBeforeLast(xs: seq<Span>, ys: seq<Span>, key: Key)
    requires xs != [] && ys != [] && xs[|xs| - 1] == ys[|ys| - 1]
    requires Filter(xs, WithKey(key)) == Filter(ys, WithKey(key))
    ensures Filter(xs[..|xs| - 1], WithKey(key)) == Filter(ys[..|ys| - 1], WithKey(key))
  {
    var fx, fy := Filter(xs[..|xs| - 1], WithKey(key)), Filter(ys[..|ys| - 1], WithKey(key));
    var last := xs[|xs| - 1];
    if last.key == key {
      assert Filter(xs, WithKey(key))[..|fx|] == fx && Filter(ys, WithKey(key))[..|fy|] == fy;
    }
  }

  lemma {:induction false} LastsAgree(xs: seq<Span>, ys: seq<Span>)
    requires InSpanOrder(xs) && InSpanOrder(ys) && SameByKey(xs, ys) && xs != [] && ys != []
    ensures xs[|xs| - 1] == ys[|ys| - 1]
  {
    var x, y := xs[|xs| - 1], ys[|ys| - 1];
    LastIsShared(xs, ys);
    LastIsShared(ys, xs);
    MemberIsBelowLast(xs, y);
    MemberIsBelowLast(ys, x);
    SameRankSameKey(x, y);
    LastOfFilter(xs);
    LastOfFilter(ys);
    var common := Filter(xs, WithKey(x.key));
    assert common == Filter(ys, WithKey(x.key)) == Filter(ys, WithKey(y.key));
    assert common[|common| - 1] == x && common[|common| - 1] == y;
  }

  /** Order and the spans of each key leave no freedom. */
  lemma {:induction false} SpansAreDetermined(xs: seq<Span>, ys: seq<Span>)
    requires InSpanOrder(xs) && InSpanOrder(ys) && SameByKey(xs, ys)
    ensures xs == ys
    decreases |xs|
  {
    if xs != [] {
      LastIsShared(xs, ys);
      assert ys != [];
      LastsAgree(xs, ys);
      var xs', ys' := xs[..|xs| - 1], ys[..|ys| - 1];
      forall key
        ensures Filter(xs', WithKey(key)) == Filter(ys', WithKey(key))
      {
        assert Filter(xs, WithKey(key)) == Filter(ys, WithKey(key));
        SameBeforeLast(xs, ys, key);
      }
      SpansAreDetermined(xs', ys');
      assert xs == xs' + [xs[|xs| - 1]] && ys == ys' + [ys[|ys| - 1]];
    } else if ys != [] {
      LastIsShared(ys, xs);
    }
  }

  lemma {:induction false} FirstOverflowIsUnique(entries: seq<Entry>, m: nat, n: nat)
    requires IsFirstOverflow(entries, m) && IsFirstOverflow(entries, n)
    ensures m == n
  {
  }

  /** The order events arrive in does not matter: a dated journal whose events
      have distinct places has one assessment, whatever permutation is folded. */
  lemma {:induction false} AssessmentForgetsOrder(
      events: seq<Event>, shuffled: seq<Event>, policy: Policy, r: Result<Assessment, Error>, r': Result<Assessment, Error>)
    requires multiset(Placed(events)) == multiset(Placed(shuffled)) && DistinctRanks(Placed(events))
    requires Dated(events) && Dated(shuffled)
    requires IsAssessmentOf(events, policy, r) && IsAssessmentOf(shuffled, policy, r')
    ensures r == r'
  {
    SortForgetsOrder(Placed(events), Placed(shuffled));
    var entries := EntriesOf(Replayed(events));
    match r
    case Ok(a) =>
      match r' {
        case Ok(a') =>
          assert SameByKey(a.spans, a'.spans);
          SpansAreDetermined(a.spans, a'.spans);
        case Err(_) =>
      }
    case Err(error) =>
      var m: nat :| IsFirstOverflow(entries, m) && entries[m].key == error.key;
      var n: nat :| IsFirstOverflow(entries, n) && entries[n].key == r'.error.key;
      FirstOverflowIsUnique(entries, m, n);
  }
}
