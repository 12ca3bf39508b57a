/** Negative-cash intervals of a whole journal (`assess_effective`, `classify`,
    `blocks_period_reports`). */
module Perimeter {
  import opened Outcomes
  import opened Money
  import opened NegativeRuns
  import opened StableSorting

  // ---- The journal -----------------------------------------------------------

  datatype LegKind = Cash | SecurityQuantity | Principal | Fee | Tax

  datatype Leg = Leg(kind: LegKind, account: int, money: Option<Money>)

  /** Everything but a quantity of securities moves cash. */
  function CashEffect(leg: Leg): Option<Money> {
    if leg.kind.SecurityQuantity? then None else leg.money
  }

  /** An event in force. `place` is its place in the replay order, which is total
      on distinct identifiers; `effective` is the date it counts on, if it has one. */
  datatype Event = Event(
    id: int, place: int, effective: Option<int>, account: int, isMarginInterest: bool, legs: seq<Leg>)

  datatype Policy = Policy(settlementWindowDays: nat)

  datatype Classification = TemporarySettlementDeficit | UnsupportedMarginLiability | UnclassifiedNegativeCash {

    predicate BlocksReports() {
      !TemporarySettlementDeficit?
    }
  }

  datatype Span = Span(key: Key, from: int, resolved: Option<int>, classification: Classification)

  datatype Error = EventWithoutDate(event: int) | BalanceOverflow(key: Key)

  datatype Assessment = Assessment(policy: Policy, spans: seq<Span>, financing: set<int>)

  predicate BlocksPeriodReports(assessment: Assessment, account: int) {
    exists i | 0 <= i < |assessment.spans| ::
      assessment.spans[i].key.account == account && assessment.spans[i].classification.BlocksReports()
  }

  // ---- What the fold works on --------------------------------------------------

  function Placed(events: seq<Event>): (xs: seq<Keyed<Event>>)
    ensures |xs| == |events|
    ensures forall i | 0 <= i < |events| :: xs[i] == Keyed(Single(events[i].place), events[i])
  {
    seq(|events|, i requires 0 <= i < |events| => Keyed(Single(events[i].place), events[i]))
  }

  /** The events in replay order. */
  function Replayed(events: seq<Event>): seq<Event> {
    Items(Sort(Placed(events)))
  }

  predicate Dated(events: seq<Event>) {
    forall i | 0 <= i < |events| :: events[i].effective.Some?
  }

  function EntriesOfLegs(legs: seq<Leg>, date: int): seq<Entry> {
    if legs == [] then []
    else
      var before, leg := EntriesOfLegs(legs[..|legs| - 1], date), legs[|legs| - 1];
      match CashEffect(leg)
      case Some(money) => before + [Entry(Key(leg.account, money.currency), money.amount, date)]
      case None => before
  }

  function DateOf(event: Event): int {
    if event.effective.Some? then event.effective.value else 0
  }

  /** Every cash leg of the journal, in replay order. */
  function EntriesOf(events: seq<Event>): seq<Entry> {
    if events == [] then []
    else
      var last := events[|events| - 1];
      EntriesOf(events[..|events| - 1]) + EntriesOfLegs(last.legs, DateOf(last))
  }

  /** The legs of one account and currency. */
  function Own(entries: seq<Entry>, key: Key): seq<Entry> {
    if entries == [] then []
    else
      var before, last := Own(entries[..|entries| - 1], key), entries[|entries| - 1];
      if last.key == key then before + [last] else before
  }

  lemma {:induction false} OwnSnoc(done: seq<Entry>, leg: Entry, key: Key)
    ensures Own(done + [leg], key) == if leg.key == key then Own(done, key) + [leg] else Own(done, key)
  {
    assert (done + [leg])[..|done|] == done;
  }

  /** Accounts charged margin interest anywhere in the journal. */
  function FinancingOf(events: seq<Event>): set<int> {
    if events == [] then {}
    else
      var before, last := FinancingOf(events[..|events| - 1]), events[|events| - 1];
      if last.isMarginInterest then before + {last.account} else before
  }

  // ---- Spans -----------------------------------------------------------------

  function Classify(key: Key, from: int, resolved: Option<int>, financing: set<int>, policy: Policy): Span {
    Span(key, from, resolved,
         if key.account in financing then UnsupportedMarginLiability
         else if resolved.Some? && resolved.value - from <= policy.settlementWindowDays then TemporarySettlementDeficit
         else UnclassifiedNegativeCash)
  }

  /** Spans sort by start, account and currency. */
  function RankOf(span: Span): Rank {
    Rank(span.from, span.key.account, CurrencyRank(span.key.currency))
  }

  function Ranked(span: Span): Keyed<Span> {
    Keyed(RankOf(span), span)
  }

  function SpansOfRuns(key: Key, runs: seq<Run>, financing: set<int>, policy: Policy): (spans: seq<Keyed<Span>>)
    ensures |spans| == |runs|
    ensures forall i | 0 <= i < |runs| ::
              spans[i] == Ranked(Classify(key, runs[i].from, runs[i].resolved, financing, policy))
  {
    seq(|runs|, i requires 0 <= i < |runs| => Ranked(Classify(key, runs[i].from, runs[i].resolved, financing, policy)))
  }

  function OfKey(key: Key): Keyed<Span> -> bool {
    (x: Keyed<Span>) => x.item.key == key
  }

  function WithKey(key: Key): Span -> bool {
    (span: Span) => span.key == key
  }

  /** The spans of one account and currency, from its own legs alone. */
  function OwnSpans(own: seq<Entry>, key: Key, financing: set<int>, policy: Policy): seq<Span> {
    Items(Sort(SpansOfRuns(key, RunsOf(own), financing, policy)))
  }

  /** The spans of a journal: in order, and for every account and currency
      exactly those its own legs make. */
  ghost predicate AreTheSpans(entries: seq<Entry>, financing: set<int>, policy: Policy, spans: seq<Span>) {
    && (forall i, j | 0 <= i < j < |spans| :: Le(RankOf(spans[i]), RankOf(spans[j])))
    && forall key :: Filter(spans, WithKey(key)) == OwnSpans(Own(entries, key), key, financing, policy)
  }

  // ---- When the fold fails -----------------------------------------------------

  /** Posting leg `n` takes its account and currency out of range. */
  predicate Overflows(entries: seq<Entry>, n: nat)
    requires n < |entries|
  {
    !Fits(Balance(Own(entries[..n + 1], entries[n].key)))
  }

  ghost predicate IsFirstOverflow(entries: seq<Entry>, n: nat) {
    n < |entries| && Overflows(entries, n) && forall m | 0 <= m < n :: !Overflows(entries, m)
  }

  ghost predicate IsFirstUndated(events: seq<Event>, n: nat) {
    n < |events| && events[n].effective.None? && forall m | 0 <= m < n :: events[m].effective.Some?
  }

  /** What assessing a journal comes to: the first event without a date, else the
      first overflow in replay order, else its spans. */
  ghost predicate IsAssessmentOf(events: seq<Event>, policy: Policy, r: Result<Assessment, Error>) {
    var entries := EntriesOf(Replayed(events));
    match r
    case Err(EventWithoutDate(id)) => exists n: nat :: IsFirstUndated(events, n) && events[n].id == id
    case Err(BalanceOverflow(key)) => Dated(events) && exists n: nat :: IsFirstOverflow(entries, n) && entries[n].key == key
    case Ok(assessment) =>
      && Dated(events)
      && (forall n | 0 <= n < |entries| :: !Overflows(entries, n))
      && assessment.policy == policy
      && assessment.financing == FinancingOf(Replayed(events))
      && AreTheSpans(entries, assessment.financing, policy, assessment.spans)
  }
}
