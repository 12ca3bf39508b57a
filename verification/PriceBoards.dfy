/** Price observations by instrument and date, and the log they were recorded from. */
module PriceBoards {
  import opened Outcomes

  datatype Quality = Executable | PreviousClose | CarriedForward | Stale | OwnerEstimate

  datatype Price = Price(instrument: int, price: real, currency: int, quality: Quality, asOf: int)

  /** What the board reads of a journal event. */
  datatype Event =
    | Valuation(instrument: int, price: real, currency: int, quality: Quality, effectiveDate: Option<int>)
    | OtherEvent

  type Board = map<int, map<int, Price>>

  function DatesOf(board: Board, instrument: int): map<int, Price> {
    if instrument in board then board[instrument] else map[]
  }

  // ---- Dates in order --------------------------------------------------------------

  predicate IsGreatest(date: int, dates: set<int>) {
    date in dates && forall d | d in dates :: d <= date
  }

  lemma {:induction false} Member<T>(s: set<T>) returns (x: T)
    requires s != {}
    ensures x in s
  {
    x :| x in s;
  }

  lemma {:induction false} GreatestExists(dates: set<int>) returns (date: int)
    requires dates != {}
    ensures IsGreatest(date, dates)
    decreases |dates|
  {
    var d := Member(dates);
    if dates == {d} {
      date := d;
    } else {
      var rest := dates - {d};
      assert dates == rest + {d};
      var r := GreatestExists(rest);
      date := if d < r then r else d;
    }
  }

  /** The last date of an ordered set, as iterating it from the back gives first. */
  function Greatest(dates: set<int>): (date: int)
    requires dates != {}
    ensures IsGreatest(date, dates)
  {
    assert exists d :: IsGreatest(d, dates) by {
      var d := GreatestExists(dates);
    }
    var d :| IsGreatest(d, dates);
    d
  }

  function UpTo(prices: map<int, Price>, asOf: int): set<int> {
    set d | d in prices && d <= asOf
  }

  /** Prices of the dates given, newest first. */
  function NewestFirst(prices: map<int, Price>, dates: set<int>): seq<Price>
    requires dates <= prices.Keys
    decreases dates
  {
    if dates == {} then []
    else
      var date := Greatest(dates);
      [prices[date]] + NewestFirst(prices, dates - {date})
  }

  // ---- The log --------------------------------------------------------------------

  predicate Concerns(price: Price, instrument: int, date: int) {
    price.instrument == instrument && price.asOf == date
  }

  /** The last price recorded for an instrument and date. */
  function LastAt(log: seq<Price>, instrument: int, date: int): Option<Price> {
    if log == [] then None
    else if Concerns(log[|log| - 1], instrument, date) then Some(log[|log| - 1])
    else LastAt(log[..|log| - 1], instrument, date)
  }

  /** The answer a reader of the log would give: scan it all, keep the latest date no
      later than asked, and the later record of one date. */
  function Scan(log: seq<Price>, instrument: int, asOf: int): Option<Price> {
    if log == [] then None
    else
      var best, last := Scan(log[..|log| - 1], instrument, asOf), log[|log| - 1];
      if last.instrument == instrument && last.asOf <= asOf && (best.None? || best.value.asOf <= last.asOf)
      then Some(last)
      else best
  }

  /** The board holds, of every instrument and date, the last price recorded for it. */
  ghost predicate Reflects(board: Board, log: seq<Price>) {
    && (forall instrument | instrument in board :: board[instrument].Keys != {})
    && forall instrument, date :: HoldsLast(board, log, instrument, date)
  }

  ghost predicate HoldsLast(board: Board, log: seq<Price>, instrument: int, date: int) {
    LastAt(log, instrument, date) ==
    if date in DatesOf(board, instrument) then Some(DatesOf(board, instrument)[date]) else None
  }

  /** Entries of one instrument and, per instrument, of one date. */
  class PriceBoard {
    var prices: Board
    ghost var log: seq<Price>

    ghost predicate Valid()
      reads this
    {
      Reflects(prices, log)
    }

    constructor ()
      ensures Valid() && log == []
    {
      prices := map[];
      log := [];
    }

    /** Record a price: nothing recorded under another date or instrument is touched. */
    method Record(price: Price)
      requires Valid()
      modifies this
      ensures Valid() && log == old(log) + [price]
    {
      var dates := if price.instrument in prices then prices[price.instrument] else map[];
      prices := prices[price.instrument := dates[price.asOf := price]];
      assert price.asOf in prices[price.instrument].Keys;
      log := log + [price];
      forall instrument, date
        ensures HoldsLast(prices, log, instrument, date)
      {
        LastAtSnoc(old(log), price, instrument, date);
        assert HoldsLast(old(prices), old(log), instrument, date);
      }
    }

    method Observe(event: Event)
      requires Valid()
      modifies this
      ensures Valid()
      ensures log == match event
                     case Valuation(instrument, price, currency, quality, Some(asOf)) =>
                       old(log) + [Price(instrument, price, currency, quality, asOf)]
                     case _ => old(log)
    {
      match event
      case Valuation(instrument, price, currency, quality, effectiveDate) =>
        match effectiveDate {
          case Some(asOf) => Record(Price(instrument, price, currency, quality, asOf));
          case None =>
        }
      case OtherEvent =>
    }

    /** The price on a date, or the latest before it: what a scan of the log finds. */
    function PriceAtOrBefore(instrument: int, asOf: int): (price: Option<Price>)
      requires Valid()
      reads this
      ensures price == Scan(log, instrument, asOf)
    {
      var dates := UpTo(DatesOf(prices, instrument), asOf);
      LookupIsScan(prices, log, instrument, asOf);
      if dates == {} then None else Some(DatesOf(prices, instrument)[Greatest(dates)])
    }

    /** Every observation up to a date, newest first: of each date that has one, the
        last recorded, and each date once. */
    function ObservationsAtOrBefore(instrument: int, asOf: int): (found: seq<Price>)
      requires Valid()
      reads this
      ensures ListsObservations(found, log, instrument, asOf)
      ensures Scan(log, instrument, asOf) == if found == [] then None else Some(found[0])
    {
      LookupIsScan(prices, log, instrument, asOf);
      NewestFirstLists(prices, log, instrument, asOf);
      NewestFirst(DatesOf(prices, instrument), UpTo(DatesOf(prices, instrument), asOf))
    }

    /** The latest observation of every instrument, by instrument. */
    function Iter(): (latest: seq<Price>)
      requires Valid()
      reads this
      ensures ListsLatest(latest, log)
    {
      LatestIsListed(prices, log);
      LatestByInstrument(prices, prices.Keys)
    }
  }

  lemma {:induction false} LastAtSnoc(log: seq<Price>, price: Price, instrument: int, date: int)
    ensures LastAt(log + [price], instrument, date) ==
            if Concerns(price, instrument, date) then Some(price) else LastAt(log, instrument, date)
  {
    assert (log + [price])[..|log|] == log;
  }

  lemma {:induction false} LastAtConcerns(log: seq<Price>, instrument: int, date: int)
    requires LastAt(log, instrument, date).Some?
    ensures Concerns(LastAt(log, instrument, date).value, instrument, date)
    ensures LastAt(log, instrument, date).value in log
  {
    if !Concerns(log[|log| - 1], instrument, date) {
      LastAtConcerns(log[..|log| - 1], instrument, date);
    }
  }

  /** What a scan finds, date by date: the last record of the greatest date that has one. */
  lemma {:induction false} ScanIs(log: seq<Price>, instrument: int, asOf: int)
    ensures Scan(log, instrument, asOf).None? ==>
              forall date | date <= asOf :: LastAt(log, instrument, date).None?
    ensures Scan(log, instrument, asOf).Some? ==>
              var price := Scan(log, instrument, asOf).value;
              && price.asOf <= asOf && LastAt(log, instrument, price.asOf) == Some(price)
              && forall date | price.asOf < date <= asOf :: LastAt(log, instrument, date).None?
  {
    if log != [] {
      var init, last := log[..|log| - 1], log[|log| - 1];
      ScanIs(init, instrument, asOf);
      if Scan(init, instrument, asOf).Some? {
        LastAtConcerns(init, instrument, Scan(init, instrument, asOf).value.asOf);
      }
    }
  }

  lemma {:induction false} NothingListed(board: Board, log: seq<Price>, instrument: int, asOf: int)
    requires Reflects(board, log)
    requires forall date | date <= asOf :: LastAt(log, instrument, date).None?
    ensures UpTo(DatesOf(board, instrument), asOf) == {}
  {
    forall date | date <= asOf
      ensures date !in DatesOf(board, instrument)
    {
      assert HoldsLast(board, log, instrument, date);
    }
  }

  lemma {:induction false} LookupIsScan(board: Board, log: seq<Price>, instrument: int, asOf: int)
    requires Reflects(board, log)
    ensures var dates := UpTo(DatesOf(board, instrument), asOf);
      Scan(log, instrument, asOf) ==
      if dates == {} then None else Some(DatesOf(board, instrument)[Greatest(dates)])
  {
    var dates := UpTo(DatesOf(board, instrument), asOf);
    ScanIs(log, instrument, asOf);
    match Scan(log, instrument, asOf) {
      case None =>
        NothingListed(board, log, instrument, asOf);
      case Some(price) =>
        assert HoldsLast(board, log, instrument, price.asOf);
        assert price.asOf in dates;
        assert HoldsLast(board, log, instrument, Greatest(dates));
    }
  }

  /** The dates are strictly descending, and every date no later than asked that was
      ever recorded is there with its last record, and no other. */
  ghost predicate ListsObservations(found: seq<Price>, log: seq<Price>, instrument: int, asOf: int) {
    && (forall i, j | 0 <= i < j < |found| :: found[i].asOf > found[j].asOf)
    && (forall price :: price in found <==> price.asOf <= asOf && LastAt(log, instrument, price.asOf) == Some(price))
  }

  lemma {:induction false} NewestFirstIs(prices: map<int, Price>, dates: set<int>)
    requires dates <= prices.Keys
    requires forall d | d in prices :: prices[d].asOf == d
    ensures var found := NewestFirst(prices, dates);
      && (forall i, j | 0 <= i < j < |found| :: found[i].asOf > found[j].asOf)
      && (forall price :: price in found <==> price.asOf in dates && prices[price.asOf] == price)
      && (dates != {} ==> found != [] && found[0] == prices[Greatest(dates)])
    decreases dates
  {
    if dates != {} {
      var date := Greatest(dates);
      var rest := NewestFirst(prices, dates - {date});
      var found := NewestFirst(prices, dates);
      assert found == [prices[date]] + rest;
      NewestFirstIs(prices, dates - {date});
      forall price: Price
        ensures price in found <==> price.asOf in dates && prices[price.asOf] == price
      {
        assert price in found <==> price == prices[date] || price in rest;
      }
      forall i | 0 <= i < |rest|
        ensures rest[i].asOf < date
      {
        assert rest[i] in rest;
      }
    }
  }

  lemma {:induction false} DatesAreKeys(board: Board, log: seq<Price>, instrument: int)
    requires Reflects(board, log)
    ensures forall d | d in DatesOf(board, instrument) :: DatesOf(board, instrument)[d].asOf == d
  {
    forall d | d in DatesOf(board, instrument)
      ensures DatesOf(board, instrument)[d].asOf == d
    {
      assert HoldsLast(board, log, instrument, d);
      LastAtConcerns(log, instrument, d);
    }
  }

  lemma {:induction false} NewestFirstLists(board: Board, log: seq<Price>, instrument: int, asOf: int)
    requires Reflects(board, log)
    ensures var dates := UpTo(DatesOf(board, instrument), asOf);
      var found := NewestFirst(DatesOf(board, instrument), dates);
      && ListsObservations(found, log, instrument, asOf)
      && (found == [] <==> dates == {})
      && (dates != {} ==> found[0] == DatesOf(board, instrument)[Greatest(dates)])
  {
    var dates := UpTo(DatesOf(board, instrument), asOf);
    DatesAreKeys(board, log, instrument);
    NewestFirstIs(DatesOf(board, instrument), dates);
    forall price: Price
      ensures (price.asOf in dates && DatesOf(board, instrument)[price.asOf] == price)
         <==> price.asOf <= asOf && LastAt(log, instrument, price.asOf) == Some(price)
    {
      assert HoldsLast(board, log, instrument, price.asOf);
    }
  }

  // ---- The latest of each instrument ----------------------------------------------------

  /** Nothing recorded for the instrument is later than this price, nor replaces it. */
  ghost predicate IsLatest(price: Price, log: seq<Price>) {
    && LastAt(log, price.instrument, price.asOf) == Some(price)
    && forall date | date > price.asOf :: LastAt(log, price.instrument, date).None?
  }

  /** The instruments strictly ascend, and every price that is the latest of its
      instrument is there, and no other. */
  ghost predicate ListsLatest(latest: seq<Price>, log: seq<Price>) {
    && (forall i, j | 0 <= i < j < |latest| :: latest[i].instrument < latest[j].instrument)
    && forall price :: price in latest <==> IsLatest(price, log)
  }

  predicate HasDates(board: Board, instrument: int) {
    instrument in board && board[instrument].Keys != {}
  }

  function LatestOf(board: Board, instrument: int): Price
    requires HasDates(board, instrument)
  {
    board[instrument][Greatest(board[instrument].Keys)]
  }

  function LatestByInstrument(board: Board, instruments: set<int>): seq<Price>
    requires forall instrument | instrument in instruments :: HasDates(board, instrument)
    decreases instruments
  {
    if instruments == {} then []
    else
      var last := Greatest(instruments);
      LatestByInstrument(board, instruments - {last}) + [LatestOf(board, last)]
  }

  lemma {:induction false} LatestByInstrumentIs(board: Board, instruments: set<int>)
    requires forall instrument | instrument in instruments :: HasDates(board, instrument)
    requires forall instrument | instrument in instruments :: LatestOf(board, instrument).instrument == instrument
    ensures var latest := LatestByInstrument(board, instruments);
      && (forall i, j | 0 <= i < j < |latest| :: latest[i].instrument < latest[j].instrument)
      && forall price :: price in latest <==> price.instrument in instruments && price == LatestOf(board, price.instrument)
    decreases instruments
  {
    if instruments != {} {
      var last := Greatest(instruments);
      var rest := LatestByInstrument(board, instruments - {last});
      LatestByInstrumentIs(board, instruments - {last});
      forall i | 0 <= i < |rest|
        ensures rest[i].instrument < last
      {
        assert rest[i] in rest;
      }
    }
  }

  lemma {:induction false} LatestOfIsLatest(board: Board, log: seq<Price>, instrument: int)
    requires Reflects(board, log) && HasDates(board, instrument)
    ensures IsLatest(LatestOf(board, instrument), log) && LatestOf(board, instrument).instrument == instrument
  {
    var date := Greatest(board[instrument].Keys);
    assert HoldsLast(board, log, instrument, date);
    LastAtConcerns(log, instrument, date);
    forall d | d > date
      ensures LastAt(log, instrument, d).None?
    {
      assert HoldsLast(board, log, instrument, d);
    }
  }

  lemma {:induction false} LatestIsUnique(a: Price, b: Price, log: seq<Price>)
    requires IsLatest(a, log) && IsLatest(b, log) && a.instrument == b.instrument
    ensures a == b
  {
  }

  lemma {:induction false} LatestIsListed(board: Board, log: seq<Price>)
    requires Reflects(board, log)
    ensures forall instrument | instrument in board :: HasDates(board, instrument)
    ensures ListsLatest(LatestByInstrument(board, board.Keys), log)
  {
    forall instrument | instrument in board
      ensures IsLatest(LatestOf(board, instrument), log) && LatestOf(board, instrument).instrument == instrument
    {
      LatestOfIsLatest(board, log, instrument);
    }
    LatestByInstrumentIs(board, board.Keys);
    forall price | IsLatest(price, log)
      ensures price.instrument in board && price == LatestOf(board, price.instrument)
    {
      assert HoldsLast(board, log, price.instrument, price.asOf);
      LatestOfIsLatest(board, log, price.instrument);
      LatestIsUnique(price, LatestOf(board, price.instrument), log);
    }
  }

  /** A log that is added to does not lose what it said: only a record of the same
      instrument and date replaces a price, so a later observation never hides an
      earlier one from a reader who asks about an earlier day. */
  lemma {:induction false} EarlierPricesStay(log: seq<Price>, later: seq<Price>, instrument: int, asOf: int)
    requires forall i | 0 <= i < |later| && later[i].instrument == instrument :: later[i].asOf > asOf
    ensures Scan(log + later, instrument, asOf) == Scan(log, instrument, asOf)
    decreases |later|
  {
    if later == [] {
      assert log + later == log;
    } else {
      assert (log + later)[..|log + later| - 1] == log + later[..|later| - 1];
      EarlierPricesStay(log, later[..|later| - 1], instrument, asOf);
    }
  }

  /** A scan is independent of the order of the records wherever no two of them are
      about one instrument and date. */
  lemma {:induction false} ScanIgnoresOrder(log: seq<Price>, other: seq<Price>, instrument: int, asOf: int)
    requires multiset(log) == multiset(other)
    requires forall i, j | 0 <= i < |log| && 0 <= j < |log|
               && log[i].instrument == log[j].instrument == instrument && log[i].asOf == log[j].asOf :: log[i] == log[j]
    ensures Scan(log, instrument, asOf) == Scan(other, instrument, asOf)
  {
    forall date
      ensures LastAt(log, instrument, date) == LastAt(other, instrument, date)
    {
      if LastAt(log, instrument, date).Some? {
        LastAtConcerns(log, instrument, date);
        assert LastAt(log, instrument, date).value in multiset(other);
        LastAtFinds(other, LastAt(log, instrument, date).value);
        LastAtConcerns(other, instrument, date);
        assert LastAt(other, instrument, date).value in multiset(log);
      } else if LastAt(other, instrument, date).Some? {
        LastAtConcerns(other, instrument, date);
        assert LastAt(other, instrument, date).value in multiset(log);
        LastAtFinds(log, LastAt(other, instrument, date).value);
      }
    }
    ScanIs(log, instrument, asOf);
    ScanIs(other, instrument, asOf);
  }

  lemma {:induction false} LastAtFinds(log: seq<Price>, price: Price)
    requires price in log
    ensures LastAt(log, price.instrument, price.asOf).Some?
  {
    if !Concerns(log[|log| - 1], price.instrument, price.asOf) {
      LastAtFinds(log[..|log| - 1], price);
    }
  }
}
