/** The fold itself, over mutable balances, open intervals and finished spans. */
module PerimeterFold {
  import opened Outcomes
  import opened Money
  import opened NegativeRuns
  import opened StableSorting
  import opened Perimeter

  /** The fold's three tables. */
  datatype Tables = Tables(balances: map<Key, PostedMinor>, open: map<Key, int>, pushed: seq<Keyed<Span>>)

  function OpenFrom(scan: Scan): Option<int> {
    match scan.open
    case Some((start, from)) => Some(from)
    case None => None
  }

  /** The tables say of one key what a scan of that key's own legs says. */
  ghost predicate TracksKey(t: Tables, own: seq<Entry>, key: Key, financing: set<int>, policy: Policy) {
    && (if key in t.balances then t.balances[key] as int else 0) == ScanOf(own).balance
    && (if key in t.open then Some(t.open[key]) else None) == OpenFrom(ScanOf(own))
    && Filter(t.pushed, OfKey(key)) == SpansOfRuns(key, ScanOf(own).closed, financing, policy)
  }

  ghost predicate Tracks(t: Tables, done: seq<Entry>, financing: set<int>, policy: Policy) {
    forall key :: TracksKey(t, Own(done, key), key, financing, policy)
  }

  lemma {:induction false} SpansSnoc(key: Key, runs: seq<Run>, run: Run, financing: set<int>, policy: Policy)
    ensures SpansOfRuns(key, runs + [run], financing, policy)
         == SpansOfRuns(key, runs, financing, policy) + [Ranked(Classify(key, run.from, run.resolved, financing, policy))]
  {
  }

  /** The tables once a leg that does not overflow is posted. */
  function Posted(t: Tables, leg: Entry, balance: PostedMinor, financing: set<int>, policy: Policy): Tables {
    var balances := t.balances[leg.key := balance];
    if balance < 0 && leg.key !in t.open then
      Tables(balances, t.open[leg.key := leg.date], t.pushed)
    else if balance >= 0 && leg.key in t.open then
      Tables(balances, t.open - {leg.key},
             t.pushed + [Ranked(Classify(leg.key, t.open[leg.key], Some(leg.date), financing, policy))])
    else
      Tables(balances, t.open, t.pushed)
  }

  lemma {:induction false} PostedTracksItsKey(t: Tables, own: seq<Entry>, leg: Entry, balance: PostedMinor, financing: set<int>, policy: Policy)
    requires TracksKey(t, own, leg.key, financing, policy)
    requires balance as int == ScanOf(own).balance + leg.amount as int
    ensures TracksKey(Posted(t, leg, balance, financing, policy), own + [leg], leg.key, financing, policy)
  {
    var scan, key := ScanOf(own), leg.key;
    ScanSnoc(own, leg);
    if balance >= 0 && key in t.open {
      var (start, from) := scan.open.value;
      var run := Run(start, Some(|own|), from, Some(leg.date));
      SpansSnoc(key, scan.closed, run, financing, policy);
      FilterSnoc(t.pushed, Ranked(Classify(key, from, Some(leg.date), financing, policy)), OfKey(key));
    }
  }

  lemma {:induction false} PostedTracksOthers(t: Tables, own: seq<Entry>, leg: Entry, balance: PostedMinor, key: Key, financing: set<int>, policy: Policy)
    requires TracksKey(t, own, key, financing, policy) && key != leg.key
    ensures TracksKey(Posted(t, leg, balance, financing, policy), own, key, financing, policy)
  {
    if balance >= 0 && leg.key in t.open {
      FilterSnoc(t.pushed, Ranked(Classify(leg.key, t.open[leg.key], Some(leg.date), financing, policy)), OfKey(key));
    }
  }

  /** Post one leg. */
  method PostLeg(t: Tables, leg: Entry, financing: set<int>, policy: Policy, ghost done: seq<Entry>)
    returns (r: Result<Tables, Error>)
    requires Tracks(t, done, financing, policy)
    ensures r.Ok? ==> Fits(Balance(Own(done + [leg], leg.key))) && Tracks(r.value, done + [leg], financing, policy)
    ensures r.Ok? && AllRanked(t.pushed) ==> AllRanked(r.value.pushed)
    ensures r.Err? ==> r.error == BalanceOverflow(leg.key) && !Fits(Balance(Own(done + [leg], leg.key)))
  {
    var balances, open, pushed := t.balances, t.open, t.pushed;
    var slot: PostedMinor := if leg.key in balances then balances[leg.key] else 0;
    assert TracksKey(t, Own(done, leg.key), leg.key, financing, policy);
    OwnSnoc(done, leg, leg.key);
    ScanSnoc(Own(done, leg.key), leg);
    ScanBalance(Own(done, leg.key) + [leg]);
    var sum := CheckedAdd(slot, leg.amount);
    if sum.None? {
      return Err(BalanceOverflow(leg.key));
    }
    balances := balances[leg.key := sum.value];
    if sum.value < 0 && leg.key !in open {
      open := open[leg.key := leg.date];
    } else if sum.value >= 0 && leg.key in open {
      var start := open[leg.key];
      open := open - {leg.key};
      pushed := pushed + [Ranked(Classify(leg.key, start, Some(leg.date), financing, policy))];
    }
    r := Ok(Tables(balances, open, pushed));
    assert r.value == Posted(t, leg, sum.value, financing, policy);
    forall key
      ensures TracksKey(r.value, Own(done + [leg], key), key, financing, policy)
    {
      assert TracksKey(t, Own(done, key), key, financing, policy);
      OwnSnoc(done, leg, key);
      if key == leg.key {
        PostedTracksItsKey(t, Own(done, key), leg, sum.value, financing, policy);
      } else {
        PostedTracksOthers(t, Own(done, key), leg, sum.value, key, financing, policy);
      }
    }
  }

  // ---- Events and their legs ------------------------------------------------------

  ghost predicate AllRanked(pushed: seq<Keyed<Span>>) {
    forall i | 0 <= i < |pushed| :: pushed[i].rank == RankOf(pushed[i].item)
  }

  /** No leg before the `n`-th overflows. */
  ghost predicate CleanTo(entries: seq<Entry>, n: nat) {
    n <= |entries| && forall m | 0 <= m < n :: !Overflows(entries, m)
  }

  ghost predicate OverflowsFirstAt(entries: seq<Entry>, error: Error) {
    error.BalanceOverflow? && exists n: nat :: IsFirstOverflow(entries, n) && entries[n].key == error.key
  }

  lemma {:induction false} LegsSnoc(legs: seq<Leg>, j: nat, date: int)
    requires j < |legs|
    ensures EntriesOfLegs(legs[..j + 1], date)
         == match CashEffect(legs[j])
            case Some(money) => EntriesOfLegs(legs[..j], date) + [Entry(Key(legs[j].account, money.currency), money.amount, date)]
            case None => EntriesOfLegs(legs[..j], date)
  {
    assert legs[..j + 1][..j] == legs[..j];
  }

  lemma {:induction false} LegsPrefix(legs: seq<Leg>, j: nat, date: int)
    requires j <= |legs|
    ensures EntriesOfLegs(legs[..j], date) <= EntriesOfLegs(legs, date)
    decreases |legs| - j
  {
    if j == |legs| {
      assert legs[..j] == legs;
    } else {
      LegsPrefix(legs, j + 1, date);
      LegsSnoc(legs, j, date);
    }
  }

  lemma {:induction false} EventsPrefix(events: seq<Event>, i: nat)
    requires i <= |events|
    ensures EntriesOf(events[..i]) <= EntriesOf(events)
    decreases |events| - i
  {
    if i == |events| {
      assert events[..i] == events;
    } else {
      EventsPrefix(events, i + 1);
      assert events[..i + 1][..i] == events[..i];
    }
  }

  lemma {:induction false} OneMoreLeg(entries: seq<Entry>, now: seq<Entry>, leg: Entry)
    requires now + [leg] <= entries && CleanTo(entries, |now|)
    ensures Fits(Balance(Own(now + [leg], leg.key))) ==> CleanTo(entries, |now| + 1)
    ensures !Fits(Balance(Own(now + [leg], leg.key))) ==> OverflowsFirstAt(entries, BalanceOverflow(leg.key))
  {
    assert entries[..|now| + 1] == now + [leg] && entries[|now|] == leg;
    if Overflows(entries, |now|) {
      assert IsFirstOverflow(entries, |now|);
    }
  }

  /** A leg that moves cash is the journal's next entry; another adds none. */
  lemma {:induction false} NextLeg(legs: seq<Leg>, j: nat, date: int, done: seq<Entry>, now: seq<Entry>, entries: seq<Entry>)
    requires j < |legs| && now == done + EntriesOfLegs(legs[..j], date)
    requires done + EntriesOfLegs(legs, date) <= entries
    ensures match CashEffect(legs[j])
      case None => done + EntriesOfLegs(legs[..j + 1], date) == now
      case Some(money) =>
        var entry := Entry(Key(legs[j].account, money.currency), money.amount, date);
        done + EntriesOfLegs(legs[..j + 1], date) == now + [entry] && now + [entry] <= entries
  {
    LegsSnoc(legs, j, date);
    LegsPrefix(legs, j + 1, date);
  }

  /** The tables are those of the legs posted so far, and none of them overflowed. */
  ghost predicate PostedTo(t: Tables, now: seq<Entry>, entries: seq<Entry>, financing: set<int>, policy: Policy) {
    Tracks(t, now, financing, policy) && AllRanked(t.pushed) && now <= entries && CleanTo(entries, |now|)
  }

  /** One more leg of the journal: posted, or the first to overflow. */
  method PostNext(t: Tables, leg: Entry, financing: set<int>, policy: Policy, ghost now: seq<Entry>, ghost entries: seq<Entry>)
    returns (r: Result<Tables, Error>)
    requires PostedTo(t, now, entries, financing, policy) && now + [leg] <= entries
    ensures r.Ok? ==> PostedTo(r.value, now + [leg], entries, financing, policy)
    ensures r.Err? ==> OverflowsFirstAt(entries, r.error)
  {
    OneMoreLeg(entries, now, leg);
    r := PostLeg(t, leg, financing, policy, now);
  }

  /** The legs of one event, posted one by one. */
  method PostEvent(start: Tables, event: Event, financing: set<int>, policy: Policy,
                   ghost done: seq<Entry>, ghost entries: seq<Entry>)
    returns (r: Result<Tables, Error>)
    requires event.effective.Some?
    requires PostedTo(start, done, entries, financing, policy)
    requires done + EntriesOfLegs(event.legs, event.effective.value) <= entries
    ensures r.Ok? ==> PostedTo(r.value, done + EntriesOfLegs(event.legs, event.effective.value), entries, financing, policy)
    ensures r.Err? ==> OverflowsFirstAt(entries, r.error)
  {
    var date := event.effective.value;
    var t := start;
    ghost var now := done;
    assert event.legs[..0] == [];
    for j := 0 to |event.legs|
      invariant now == done + EntriesOfLegs(event.legs[..j], date)
      invariant PostedTo(t, now, entries, financing, policy)
    {
      var leg := event.legs[j];
      NextLeg(event.legs, j, date, done, now, entries);
      var effect := CashEffect(leg);
      if effect.None? {
        continue;
      }
      var entry := Entry(Key(leg.account, effect.value.currency), effect.value.amount, date);
      var posted := PostNext(t, entry, financing, policy, now, entries);
      if posted.Err? {
        return posted;
      }
      t := posted.value;
      now := now + [entry];
    }
    assert event.legs[..|event.legs|] == event.legs;
    r := Ok(t);
  }

  lemma {:induction false} EventsSnoc(events: seq<Event>, i: nat)
    requires i < |events|
    ensures EntriesOf(events[..i + 1]) == EntriesOf(events[..i]) + EntriesOfLegs(events[i].legs, DateOf(events[i]))
  {
    assert events[..i + 1][..i] == events[..i];
  }

  /** The loop over the replayed journal. */
  method PostJournal(ordered: seq<Event>, financing: set<int>, policy: Policy) returns (r: Result<Tables, Error>)
    requires Dated(ordered)
    ensures r.Ok? ==> PostedTo(r.value, EntriesOf(ordered), EntriesOf(ordered), financing, policy)
    ensures r.Err? ==> OverflowsFirstAt(EntriesOf(ordered), r.error)
  {
    ghost var entries := EntriesOf(ordered);
    var t := Tables(map[], map[], []);
    assert ordered[..0] == [];
    for i := 0 to |ordered|
      invariant PostedTo(t, EntriesOf(ordered[..i]), entries, financing, policy)
    {
      EventsSnoc(ordered, i);
      EventsPrefix(ordered, i + 1);
      var posted := PostEvent(t, ordered[i], financing, policy, EntriesOf(ordered[..i]), entries);
      if posted.Err? {
        return posted;
      }
      t := posted.value;
    }
    assert ordered[..|ordered|] == ordered;
    r := Ok(t);
  }

  // ---- Intervals still open -----------------------------------------------------

  /** The spans of a key once its open interval, if it has one, is pushed too. */
  ghost predicate ClosedUp(pushed: seq<Keyed<Span>>, own: seq<Entry>, key: Key, financing: set<int>, policy: Policy) {
    Filter(pushed, OfKey(key)) == SpansOfRuns(key, RunsOf(own), financing, policy)
  }

  lemma {:induction false} OpenSpanIsLast(t: Tables, own: seq<Entry>, key: Key, financing: set<int>, policy: Policy)
    requires TracksKey(t, own, key, financing, policy)
    ensures SpansOfRuns(key, RunsOf(own), financing, policy)
         == Filter(t.pushed, OfKey(key))
            + if key in t.open then [Ranked(Classify(key, t.open[key], None, financing, policy))] else []
  {
  }

  /** Intervals that remain open at the end of the journal. The order they are
      taken in does not matter: no two are of one key. */
  method PushOpen(t: Tables, financing: set<int>, policy: Policy, ghost entries: seq<Entry>) returns (pushed: seq<Keyed<Span>>)
    requires Tracks(t, entries, financing, policy) && AllRanked(t.pushed)
    ensures AllRanked(pushed)
    ensures forall key :: ClosedUp(pushed, Own(entries, key), key, financing, policy)
  {
    pushed := t.pushed;
    var left := t.open.Keys;
    while left != {}
      invariant left <= t.open.Keys && AllRanked(pushed)
      invariant forall key :: Filter(pushed, OfKey(key)) == FilteredSoFar(t, left, key, financing, policy)
      decreases left
    {
      var key :| key in left;
      var span := Ranked(Classify(key, t.open[key], None, financing, policy));
      forall k
        ensures Filter(pushed + [span], OfKey(k)) == FilteredSoFar(t, left - {key}, k, financing, policy)
      {
        FilterSnoc(pushed, span, OfKey(k));
        assert Filter(pushed, OfKey(k)) == FilteredSoFar(t, left, k, financing, policy);
      }
      pushed := pushed + [span];
      left := left - {key};
    }
    forall key
      ensures ClosedUp(pushed, Own(entries, key), key, financing, policy)
    {
      assert Filter(pushed, OfKey(key)) == FilteredSoFar(t, {}, key, financing, policy);
      assert TracksKey(t, Own(entries, key), key, financing, policy);
      OpenSpanIsLast(t, Own(entries, key), key, financing, policy);
    }
  }

  /** What has been pushed for a key while the keys in `left` wait. */
  ghost function FilteredSoFar(t: Tables, left: set<Key>, key: Key, financing: set<int>, policy: Policy): seq<Keyed<Span>> {
    var closed := Filter(t.pushed, OfKey(key));
    if key in t.open && key !in left then closed + [Ranked(Classify(key, t.open[key], None, financing, policy))] else closed
  }

  // ---- The assessment ----------------------------------------------------------------

  lemma {:induction false} SortedSpansAreTheSpans(pushed: seq<Keyed<Span>>, entries: seq<Entry>, financing: set<int>, policy: Policy)
    requires AllRanked(pushed) && forall key :: ClosedUp(pushed, Own(entries, key), key, financing, policy)
    ensures AreTheSpans(entries, financing, policy, Items(Sort(pushed)))
  {
    var sorted := Sort(pushed);
    SortSorts(pushed);
    SortIsPermutation(pushed);
    forall i | 0 <= i < |sorted|
      ensures sorted[i].rank == RankOf(sorted[i].item)
    {
      assert sorted[i] in multiset(pushed);
    }
    forall key
      ensures Filter(Items(sorted), WithKey(key)) == OwnSpans(Own(entries, key), key, financing, policy)
    {
      ItemsFilter(sorted, OfKey(key), WithKey(key));
      SortFilter(pushed, OfKey(key));
      assert ClosedUp(pushed, Own(entries, key), key, financing, policy);
    }
  }

  lemma {:induction false} ReplayKeepsDates(events: seq<Event>)
    requires Dated(events)
    ensures Dated(Replayed(events))
  {
    SortIsPermutation(Placed(events));
    forall i | 0 <= i < |Replayed(events)|
      ensures Replayed(events)[i].effective.Some?
    {
      assert Sort(Placed(events))[i] in multiset(Placed(events));
    }
  }

  /** Accounts charged margin interest, over the whole journal before any span is classified. */
  method DetectFinancing(ordered: seq<Event>) returns (financing: set<int>)
    ensures financing == FinancingOf(ordered)
  {
    financing := {};
    for i := 0 to |ordered|
      invariant financing == FinancingOf(ordered[..i])
    {
      assert ordered[..i + 1][..i] == ordered[..i];
      if ordered[i].isMarginInterest {
        financing := financing + {ordered[i].account};
      }
    }
    assert ordered[..|ordered|] == ordered;
  }

  method AssessEffective(effective: seq<Event>, policy: Policy) returns (r: Result<Assessment, Error>)
    ensures IsAssessmentOf(effective, policy, r)
  {
    for i := 0 to |effective|
      invariant forall m | 0 <= m < i :: effective[m].effective.Some?
    {
      if effective[i].effective.None? {
        assert IsFirstUndated(effective, i);
        return Err(EventWithoutDate(effective[i].id));
      }
    }
    var ordered := Replayed(effective);
    ReplayKeepsDates(effective);
    var financing := DetectFinancing(ordered);
    var posted := PostJournal(ordered, financing, policy);
    if posted.Err? {
      return Err(posted.error);
    }
    var pushed := PushOpen(posted.value, financing, policy, EntriesOf(ordered));
    SortedSpansAreTheSpans(pushed, EntriesOf(ordered), financing, policy);
    r := Ok(Assessment(policy, Items(Sort(pushed)), financing));
  }
}
