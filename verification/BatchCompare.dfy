/** Whole batches: order does not matter to a total, and a comparison says of
    every account and currency what was stated, what was found and how they meet. */
module BatchCompare {
  import opened Outcomes
  import opened Money
  import opened KeyOrder
  import opened Sums
  import opened BatchTotals
  import opened BatchControl

  // ---- Totals ------------------------------------------------------------------

  lemma {:induction false} KeysAreNamed(ms: seq<Movement>, key: Key)
    ensures key in KeysOf(ms) <==> exists m | m in ms :: KeyOf(m) == key
  {
    if ms != [] {
      var init, last := ms[..|ms| - 1], ms[|ms| - 1];
      KeysAreNamed(init, key);
      assert ms == init + [last];
      if m :| m in init && KeyOf(m) == key {
        assert m in ms;
      }
      assert last in ms;
    }
  }

  lemma {:induction false} KeysForgetOrder(ms: seq<Movement>, shuffled: seq<Movement>)
    requires multiset(ms) == multiset(shuffled)
    ensures KeysOf(ms) == KeysOf(shuffled)
  {
    forall m
      ensures m in ms <==> m in shuffled
    {
      assert m in multiset(ms) <==> m in multiset(shuffled);
    }
    forall key
      ensures key in KeysOf(ms) <==> key in KeysOf(shuffled)
    {
      KeysAreNamed(ms, key);
      KeysAreNamed(shuffled, key);
    }
  }

  lemma {:induction false} SumsForgetOrder(ms: seq<Movement>, shuffled: seq<Movement>, key: Key)
    requires multiset(ms) == multiset(shuffled)
    ensures Rows(ms, key) == Rows(shuffled, key)
    ensures Debit(ms, key) == Debit(shuffled, key) && Credit(ms, key) == Credit(shuffled, key)
    ensures FitsAt(ms, key) == FitsAt(shuffled, key)
  {
    SumIsOrderFree(ms, shuffled, Counted(key));
    SumIsOrderFree(ms, shuffled, Arrived(key));
    SumIsOrderFree(ms, shuffled, Departed(key));
  }

  /** Any order of the same movements gives the same answer, failure included. */
  lemma {:induction false} TotalsForgetOrder(ms: seq<Movement>, shuffled: seq<Movement>)
    requires multiset(ms) == multiset(shuffled)
    ensures TotalsOf(ms) == TotalsOf(shuffled)
  {
    forall key
      ensures FitsAt(ms, key) == FitsAt(shuffled, key)
    {
      SumsForgetOrder(ms, shuffled, key);
    }
    if AllFit(ms) {
      assert AllFit(shuffled);
      KeysForgetOrder(ms, shuffled);
      var keys := InOrder(KeysOf(ms));
      forall i | 0 <= i < |keys|
        ensures TotalsAt(ms, keys)[i] == TotalsAt(shuffled, keys)[i]
      {
        SumsForgetOrder(ms, shuffled, keys[i]);
      }
      assert TotalsAt(ms, keys) == TotalsAt(shuffled, keys);
    } else {
      assert !AllFit(shuffled);
    }
  }

  ghost predicate Names(ms: seq<Movement>, key: Key) {
    exists m | m in ms :: KeyOf(m) == key
  }

  ghost predicate HasTotal(totals: seq<BatchTotal>, key: Key) {
    exists i | 0 <= i < |totals| :: totals[i].key == key
  }

  /** A total is the exact sums of its key. */
  ghost predicate IsExact(ms: seq<Movement>, total: BatchTotal) {
    && total.rows == Rows(ms, total.key)
    && total.debit as int == Debit(ms, total.key)
    && total.credit as int == Credit(ms, total.key)
    && total.net as int == Debit(ms, total.key) - Credit(ms, total.key)
  }

  /** A batch totals exactly when every exact sum can be posted. Its totals are
      then those sums, one for each key named, in strictly ascending key order;
      otherwise it has overflowed, and nothing else can have gone wrong. */
  lemma {:induction false} TotalsAreExact(ms: seq<Movement>)
    ensures TotalsOf(ms).Err? ==> TotalsOf(ms).error == Overflow && exists key :: !FitsAt(ms, key)
    ensures TotalsOf(ms).Ok? ==>
              var totals := TotalsOf(ms).value;
              && (forall i, j | 0 <= i < j < |totals| :: KeyLe(totals[i].key, totals[j].key) && totals[i].key != totals[j].key)
              && (forall key :: HasTotal(totals, key) <==> Names(ms, key))
              && (forall i | 0 <= i < |totals| :: IsExact(ms, totals[i]))
  {
    if AllFit(ms) {
      var keys := InOrder(KeysOf(ms));
      var totals := TotalsAt(ms, keys);
      InOrderAscends(KeysOf(ms));
      forall i | 0 <= i < |totals|
        ensures IsExact(ms, totals[i]) && totals[i].key == keys[i]
      {
        assert totals[i] == TotalAt(ms, keys[i]);
      }
      forall key
        ensures HasTotal(totals, key) <==> Names(ms, key)
      {
        InOrderLists(KeysOf(ms), key);
        KeysAreNamed(ms, key);
        if key in keys {
          var i :| 0 <= i < |keys| && keys[i] == key;
          assert totals[i].key == key;
        }
      }
    }
  }

  // ---- Comparisons ---------------------------------------------------------------

  datatype Comparison = Comparison(
    key: Key, stated: Option<Section>, observed: BatchTotal, checks: seq<Check>, fit: Option<IntervalFit>)

  /** The first section stated for a key. */
  function Stated(sections: seq<Section>, key: Key): Option<Section> {
    if sections == [] then None
    else if sections[0].key == key then Some(sections[0])
    else Stated(sections[1..], key)
  }

  function Found(totals: seq<BatchTotal>, key: Key): Option<BatchTotal> {
    if totals == [] then None
    else if totals[0].key == key then Some(totals[0])
    else Found(totals[1..], key)
  }

  function SectionKeys(sections: seq<Section>): set<Key> {
    if sections == [] then {} else SectionKeys(sections[..|sections| - 1]) + {sections[|sections| - 1].key}
  }

  function TotalKeys(totals: seq<BatchTotal>): set<Key> {
    if totals == [] then {} else TotalKeys(totals[..|totals| - 1]) + {totals[|totals| - 1].key}
  }

  function CompareKey(sections: seq<Section>, totals: seq<BatchTotal>, ms: seq<Movement>, key: Key): Result<Comparison, MoneyError> {
    var stated := Stated(sections, key);
    var found := Found(totals, key);
    var observed := if found.Some? then found.value else BatchTotal(key, 0, 0, 0, 0);
    match stated
    case None => Ok(Comparison(key, None, observed, [], None))
    case Some(section) =>
      match ChecksFor(section, observed)
      case Err(error) => Err(error)
      case Ok(checks) => Ok(Comparison(key, stated, observed, checks, Some(FitOf(section, ms))))
  }

  /** One comparison a key; the first failure is the answer. */
  function CompareKeys(sections: seq<Section>, totals: seq<BatchTotal>, ms: seq<Movement>, keys: seq<Key>)
    : Result<seq<Comparison>, MoneyError>
  {
    if keys == [] then Ok([])
    else
      match CompareKey(sections, totals, ms, keys[0])
      case Err(error) => Err(error)
      case Ok(comparison) =>
        match CompareKeys(sections, totals, ms, keys[1..])
        case Err(error) => Err(error)
        case Ok(rest) => Ok([comparison] + rest)
  }

  ghost function Compare(sections: seq<Section>, ms: seq<Movement>): Result<seq<Comparison>, MoneyError> {
    match TotalsOf(ms)
    case Err(error) => Err(error)
    case Ok(totals) => CompareKeys(sections, totals, ms, InOrder(TotalKeys(totals) + SectionKeys(sections)))
  }

  /** The comparison of one key. */
  method CompareOne(sections: seq<Section>, totals: seq<BatchTotal>, ms: seq<Movement>, key: Key)
    returns (r: Result<Comparison, MoneyError>)
    ensures r == CompareKey(sections, totals, ms, key)
  {
    var stated, found := Stated(sections, key), Found(totals, key);
    var observed := if found.Some? then found.value else BatchTotal(key, 0, 0, 0, 0);
    if stated.None? {
      return Ok(Comparison(key, None, observed, [], None));
    }
    var checks := CollectChecks(stated.value, observed);
    if checks.Err? {
      return Err(checks.error);
    }
    var fit := ComputeFit(stated.value, ms);
    r := Ok(Comparison(key, stated, observed, checks.value, Some(fit)));
  }

  /** What is found so far, with the comparisons still to come, is the whole answer. */
  ghost predicate Continues(whole: Result<seq<Comparison>, MoneyError>, done: seq<Comparison>,
                            rest: Result<seq<Comparison>, MoneyError>) {
    whole == match rest
             case Err(error) => Err(error)
             case Ok(comparisons) => Ok(done + comparisons)
  }

  lemma {:induction false} ContinuesAtStart(whole: Result<seq<Comparison>, MoneyError>)
    ensures Continues(whole, [], whole)
  {
    if whole.Ok? {
      assert [] + whole.value == whole.value;
    }
  }

  lemma {:induction false} ContinuesStep(sections: seq<Section>, totals: seq<BatchTotal>, ms: seq<Movement>, keys: seq<Key>,
                                         whole: Result<seq<Comparison>, MoneyError>, done: seq<Comparison>)
    requires keys != [] && Continues(whole, done, CompareKeys(sections, totals, ms, keys))
    ensures var c := CompareKey(sections, totals, ms, keys[0]);
      if c.Err? then whole == Err(c.error)
      else Continues(whole, done + [c.value], CompareKeys(sections, totals, ms, keys[1..]))
  {
    var c, rest := CompareKey(sections, totals, ms, keys[0]), CompareKeys(sections, totals, ms, keys[1..]);
    if c.Ok? && rest.Ok? {
      assert done + ([c.value] + rest.value) == (done + [c.value]) + rest.value;
    }
  }

  /** Total the rows, then compare key by key in order; the first failure ends it. */
  method CompareBatch(sections: seq<Section>, ms: seq<Movement>) returns (r: Result<seq<Comparison>, MoneyError>)
    ensures r == Compare(sections, ms)
  {
    var totalled := Total(ms);
    if totalled.Err? {
      return Err(totalled.error);
    }
    var totals := totalled.value;
    var left := TotalKeys(totals) + SectionKeys(sections);
    ghost var ordered, i: nat := InOrder(left), 0;
    var comparisons: seq<Comparison> := [];
    assert ordered[i..] == ordered;
    ContinuesAtStart(CompareKeys(sections, totals, ms, ordered));
    while left != {}
      invariant i <= |ordered| && InOrder(left) == ordered[i..]
      invariant Continues(Compare(sections, ms), comparisons, CompareKeys(sections, totals, ms, ordered[i..]))
      decreases left
    {
      var key := TakeLeast(left, ordered, i);
      ContinuesStep(sections, totals, ms, ordered[i..], Compare(sections, ms), comparisons);
      assert ordered[i..][0] == key && ordered[i..][1..] == ordered[i + 1..];
      var comparison := CompareOne(sections, totals, ms, key);
      if comparison.Err? {
        return Err(comparison.error);
      }
      comparisons := comparisons + [comparison.value];
      left := left - {key};
      i := i + 1;
    }
    assert ordered[i..] == InOrder({}) == [];
    assert comparisons + [] == comparisons;
    r := Ok(comparisons);
  }

  // ---- What a comparison says -------------------------------------------------------

  lemma {:induction false} FoundIsTotal(ms: seq<Movement>, keys: seq<Key>, key: Key)
    requires AllFit(ms)
    ensures Found(TotalsAt(ms, keys), key) == if key in keys then Some(TotalAt(ms, key)) else None
  {
    assert FitsAt(ms, key);
    if keys != [] {
      FoundIsTotal(ms, keys[1..], key);
      assert TotalsAt(ms, keys)[1..] == TotalsAt(ms, keys[1..]);
      assert keys == [keys[0]] + keys[1..];
    }
  }

  /** What is observed of a key is its exact total, and zero over zero rows where
      no row names it. */
  lemma {:induction false} ObservedIsExact(ms: seq<Movement>, key: Key)
    requires AllFit(ms)
    ensures var found := Found(TotalsAt(ms, InOrder(KeysOf(ms))), key);
            FitsAt(ms, key) && (if found.Some? then found.value else BatchTotal(key, 0, 0, 0, 0)) == TotalAt(ms, key)
  {
    assert FitsAt(ms, key);
    FoundIsTotal(ms, InOrder(KeysOf(ms)), key);
    InOrderLists(KeysOf(ms), key);
    if key !in KeysOf(ms) {
      NothingOfAnotherKey(ms, key);
    }
  }

  lemma {:induction false} TotalKeysAreKeys(ms: seq<Movement>, keys: seq<Key>)
    requires AllFit(ms)
    ensures forall key :: key in TotalKeys(TotalsAt(ms, keys)) <==> key in keys
  {
    forall key
      ensures key in TotalKeys(TotalsAt(ms, keys)) <==> key in keys
    {
      KeyedTotals(TotalsAt(ms, keys), key);
      if key in keys {
        var i :| 0 <= i < |keys| && keys[i] == key;
        assert TotalsAt(ms, keys)[i].key == key;
      }
    }
  }

  lemma {:induction false} KeyedTotals(totals: seq<BatchTotal>, key: Key)
    ensures key in TotalKeys(totals) <==> exists i | 0 <= i < |totals| :: totals[i].key == key
  {
    if totals != [] {
      KeyedTotals(totals[..|totals| - 1], key);
      if i :| 0 <= i < |totals| && totals[i].key == key {
        assert i < |totals| - 1 ==> totals[..|totals| - 1][i].key == key;
      }
    }
  }

  /** The conditions under which one key can be compared. */
  ghost predicate KeyComparable(sections: seq<Section>, ms: seq<Movement>, key: Key) {
    var stated := Stated(sections, key);
    FitsAt(ms, key) &&
    (stated.Some? ==>
      && Comparable(stated.value.debitTurnover, TotalAt(ms, key).debit)
      && Comparable(stated.value.creditTurnover, TotalAt(ms, key).credit)
      && ClosingComparable(stated.value, TotalAt(ms, key).net))
  }

  /** What the comparison of one key must be. */
  ghost predicate IsComparisonOf(sections: seq<Section>, ms: seq<Movement>, key: Key, c: Comparison) {
    && FitsAt(ms, key)
    && c.key == key && c.stated == Stated(sections, key) && c.observed == TotalAt(ms, key)
    && match c.stated
       case None => c.checks == [] && c.fit == None
       case Some(section) => AreTheChecks(c.checks, section, c.observed) && c.fit == Some(FitOf(section, ms))
  }

  lemma {:induction false} CompareKeyIff(sections: seq<Section>, ms: seq<Movement>, key: Key)
    requires AllFit(ms)
    ensures var r := CompareKey(sections, TotalsAt(ms, InOrder(KeysOf(ms))), ms, key);
            && (r.Ok? <==> KeyComparable(sections, ms, key))
            && (r.Ok? ==> IsComparisonOf(sections, ms, key, r.value))
            && (r.Err? ==> r.error == Overflow)
  {
    ObservedIsExact(ms, key);
    var stated := Stated(sections, key);
    if stated.Some? {
      ChecksAreFaithful(stated.value, TotalAt(ms, key));
    }
  }

  /** The comparisons of several keys are those of each, or the failure of one. */
  lemma {:induction false} CompareKeysAre(sections: seq<Section>, totals: seq<BatchTotal>, ms: seq<Movement>, keys: seq<Key>)
    ensures var r := CompareKeys(sections, totals, ms, keys);
            && (r.Ok? <==> forall i | 0 <= i < |keys| :: CompareKey(sections, totals, ms, keys[i]).Ok?)
            && (r.Ok? ==> |r.value| == |keys|
                          && forall i | 0 <= i < |keys| :: CompareKey(sections, totals, ms, keys[i]) == Ok(r.value[i]))
            && (r.Err? ==> exists i | 0 <= i < |keys| :: CompareKey(sections, totals, ms, keys[i]) == Err(r.error))
  {
    if keys != [] {
      CompareKeysAre(sections, totals, ms, keys[1..]);
      assert forall i | 0 < i < |keys| :: keys[i] == keys[1..][i - 1];
    }
  }

  lemma {:induction false} CompareKeysIff(sections: seq<Section>, ms: seq<Movement>, keys: seq<Key>)
    requires AllFit(ms)
    ensures var r := CompareKeys(sections, TotalsAt(ms, InOrder(KeysOf(ms))), ms, keys);
            && (r.Ok? <==> forall key | key in keys :: KeyComparable(sections, ms, key))
            && (r.Ok? ==> |r.value| == |keys| && forall i | 0 <= i < |keys| :: IsComparisonOf(sections, ms, keys[i], r.value[i]))
            && (r.Err? ==> r.error == Overflow)
  {
    var totals := TotalsAt(ms, InOrder(KeysOf(ms)));
    CompareKeysAre(sections, totals, ms, keys);
    forall i | 0 <= i < |keys|
      ensures CompareKey(sections, totals, ms, keys[i]).Ok? <==> KeyComparable(sections, ms, keys[i])
      ensures CompareKey(sections, totals, ms, keys[i]).Ok? ==>
                IsComparisonOf(sections, ms, keys[i], CompareKey(sections, totals, ms, keys[i]).value)
      ensures CompareKey(sections, totals, ms, keys[i]).Err? ==> CompareKey(sections, totals, ms, keys[i]).error == Overflow
    {
      CompareKeyIff(sections, ms, keys[i]);
    }
  }

  /** Every key either side names. */
  ghost function ComparedKeys(sections: seq<Section>, ms: seq<Movement>): seq<Key> {
    InOrder(KeysOf(ms) + SectionKeys(sections))
  }

  /** A comparison succeeds exactly when every sum, every derived balance and
      every difference it needs can be posted. It then holds one entry for each
      key named by either side, in key order, and each entry is exact. */
  lemma {:induction false} CompareIsExact(sections: seq<Section>, ms: seq<Movement>)
    ensures var r, keys := Compare(sections, ms), ComparedKeys(sections, ms);
            && Ascending(keys)
            && (r.Ok? <==> AllFit(ms) && forall key | key in keys :: KeyComparable(sections, ms, key))
            && (r.Ok? ==> |r.value| == |keys| && forall i | 0 <= i < |keys| :: IsComparisonOf(sections, ms, keys[i], r.value[i]))
            && (r.Err? ==> r.error == Overflow)
  {
    InOrderAscends(KeysOf(ms) + SectionKeys(sections));
    if AllFit(ms) {
      var keys := InOrder(KeysOf(ms));
      TotalKeysAreKeys(ms, keys);
      forall key
        ensures key in TotalKeys(TotalsAt(ms, keys)) <==> key in KeysOf(ms)
      {
        InOrderLists(KeysOf(ms), key);
      }
      assert TotalKeys(TotalsAt(ms, keys)) == KeysOf(ms);
      CompareKeysIff(sections, ms, ComparedKeys(sections, ms));
    }
  }

  // ---- Statements that meet -----------------------------------------------------------

  /** The comparison is among those of the sections and the rows. */
  ghost predicate Reports(sections: seq<Section>, ms: seq<Movement>, c: Comparison) {
    Compare(sections, ms).Ok? && c in Compare(sections, ms).value
  }

  /** It holds a closing check that matched. */
  ghost predicate ClosesOnItsRows(c: Comparison) {
    exists i | 0 <= i < |c.checks| :: c.checks[i].figure == ClosingBalance && c.checks[i].Matched?
  }

  lemma {:induction false} ReportIsComparison(sections: seq<Section>, ms: seq<Movement>, c: Comparison)
    requires Reports(sections, ms, c)
    ensures IsComparisonOf(sections, ms, c.key, c)
  {
    CompareIsExact(sections, ms);
    var comparisons := Compare(sections, ms).value;
    var i :| 0 <= i < |comparisons| && comparisons[i] == c;
    assert IsComparisonOf(sections, ms, ComparedKeys(sections, ms)[i], comparisons[i]);
  }

  lemma {:induction false} StatedIsOfItsKey(sections: seq<Section>, key: Key)
    requires Stated(sections, key).Some?
    ensures Stated(sections, key).value.key == key
  {
    if sections[0].key != key {
      StatedIsOfItsKey(sections[1..], key);
    }
  }

  lemma {:induction false} ClosingCheckIsTheAnswer(checks: seq<Check>, section: Section, observed: BatchTotal, i: nat)
    requires AreTheChecks(checks, section, observed)
    requires i < |checks| && checks[i].figure == ClosingBalance && checks[i].Matched?
    ensures section.opening.Some? && section.closing.Some?
    ensures section.opening.value + observed.net == section.closing.value
  {
    forall k | 0 <= k < |checks| && checks[k].figure == ClosingBalance
      ensures k == i
    {
      OnePerFigure(checks, i, k);
    }
  }

  /** A closing check has matched exactly where the closing balance is the opening
      one and the net of the rows. */
  lemma {:induction false} ReportClosesIff(sections: seq<Section>, ms: seq<Movement>, c: Comparison)
    requires Reports(sections, ms, c)
    ensures ClosesOnItsRows(c) <==> c.stated.Some? && ClosingMatches(c.stated.value, TotalAt(ms, c.key))
  {
    ReportIsComparison(sections, ms, c);
    if c.stated.Some? {
      var section := c.stated.value;
      if section.opening.Some? && section.closing.Some? {
        ClosingMatchesIff(section, c.observed);
      }
      if i :| 0 <= i < |c.checks| && c.checks[i].figure == ClosingBalance && c.checks[i].Matched? {
        ClosingCheckIsTheAnswer(c.checks, section, c.observed, i);
      }
    }
  }

  /** Whole statements compose. Take three comparisons of one account and currency, the
      third over the rows of the first two, whose stated balances meet: given that the
      first closes on its rows, the second closes on its own exactly when the third does. */
  lemma {:induction false} StatementsCompose(
      firsts: seq<Section>, seconds: seq<Section>, wholes: seq<Section>, ms: seq<Movement>, more: seq<Movement>,
      first: Comparison, second: Comparison, whole: Comparison)
    requires Reports(firsts, ms, first) && Reports(seconds, more, second) && Reports(wholes, ms + more, whole)
    requires first.key == second.key == whole.key
    requires first.stated.Some? && second.stated.Some? && whole.stated.Some?
    requires first.stated.value.closing == second.stated.value.opening
    requires whole.stated.value.opening == first.stated.value.opening
    requires whole.stated.value.closing == second.stated.value.closing
    requires ClosesOnItsRows(first)
    ensures ClosesOnItsRows(second) <==> ClosesOnItsRows(whole)
  {
    ReportClosesIff(firsts, ms, first);
    ReportClosesIff(seconds, more, second);
    ReportClosesIff(wholes, ms + more, whole);
    ReportIsComparison(firsts, ms, first);
    ReportIsComparison(seconds, more, second);
    ReportIsComparison(wholes, ms + more, whole);
    StatedIsOfItsKey(firsts, first.key);
    StatedIsOfItsKey(seconds, second.key);
    StatedIsOfItsKey(wholes, whole.key);
    ClosingChecksCompose(first.stated.value, second.stated.value, whole.stated.value, ms, more);
  }
}
