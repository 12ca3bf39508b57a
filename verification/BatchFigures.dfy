/** A comparison read back against the batch's rows and the printed sections: what is
    summed, what is put beside it, and which rows fall outside the interval. */
module BatchFigures {
  import opened Outcomes
  import opened Money
  import opened KeyOrder
  import opened Sums
  import opened BatchTotals
  import opened BatchControl
  import opened BatchCompare

  predicate IsOn(m: Movement, key: Key) {
    m.account == key.account && m.amount.currency == key.currency
  }

  function RowTerm(key: Key): Movement -> int {
    (m: Movement) => if IsOn(m, key) then 1 else 0
  }

  function ArrivedTerm(key: Key): Movement -> int {
    (m: Movement) => if IsOn(m, key) && m.amount.amount > 0 then m.amount.amount as int else 0
  }

  function LeftTerm(key: Key): Movement -> int {
    (m: Movement) => if IsOn(m, key) && m.amount.amount < 0 then -(m.amount.amount as int) else 0
  }

  function AmountTerm(key: Key): Movement -> int {
    (m: Movement) => if IsOn(m, key) then m.amount.amount as int else 0
  }

  lemma {:induction false} TermsAgree(ms: seq<Movement>, key: Key)
    ensures SumOf(ms, RowTerm(key)) == Rows(ms, key)
    ensures SumOf(ms, ArrivedTerm(key)) == Debit(ms, key)
    ensures SumOf(ms, LeftTerm(key)) == Credit(ms, key)
  {
    SumAgrees(ms, RowTerm(key), Counted(key));
    SumAgrees(ms, ArrivedTerm(key), Arrived(key));
    SumAgrees(ms, LeftTerm(key), Departed(key));
  }

  lemma {:induction false} NetIsTheAmounts(ms: seq<Movement>, key: Key)
    ensures SumOf(ms, ArrivedTerm(key)) - SumOf(ms, LeftTerm(key)) == SumOf(ms, AmountTerm(key))
  {
    if ms != [] {
      NetIsTheAmounts(ms[..|ms| - 1], key);
    }
  }

  /** What is observed of an account and currency: how many rows it has, what came to it,
      what left it, and what its amounts add up to. */
  lemma {:induction false} ObservedIsTheRows(sections: seq<Section>, ms: seq<Movement>, c: Comparison)
    requires Reports(sections, ms, c)
    ensures c.observed.key == c.key
    ensures c.observed.rows == SumOf(ms, RowTerm(c.key))
    ensures c.observed.debit as int == SumOf(ms, ArrivedTerm(c.key))
    ensures c.observed.credit as int == SumOf(ms, LeftTerm(c.key))
    ensures c.observed.net as int == SumOf(ms, AmountTerm(c.key))
  {
    ReportIsComparison(sections, ms, c);
    TermsAgree(ms, c.key);
    NetIsTheAmounts(ms, c.key);
  }

  /** The section stated is the first printed for the account and currency. */
  ghost predicate IsFirstFor(sections: seq<Section>, key: Key, section: Section) {
    exists i | 0 <= i < |sections| && sections[i] == section && section.key == key ::
      forall j | 0 <= j < i :: sections[j].key != key
  }

  lemma {:induction false} StatedIsFirst(sections: seq<Section>, key: Key)
    ensures Stated(sections, key).None? <==> forall i | 0 <= i < |sections| :: sections[i].key != key
    ensures Stated(sections, key).Some? ==> IsFirstFor(sections, key, Stated(sections, key).value)
  {
    if sections != [] {
      var rest := sections[1..];
      StatedIsFirst(rest, key);
      assert forall i | 0 < i < |sections| :: sections[i] == rest[i - 1];
      if sections[0].key != key && Stated(rest, key).Some? {
        var section := Stated(rest, key).value;
        var i :| 0 <= i < |rest| && rest[i] == section && section.key == key && forall j | 0 <= j < i :: rest[j].key != key;
        assert sections[i + 1] == section;
      }
    }
  }

  /** A row of the section's key dated before its interval or after it. */
  predicate IsBeyond(section: Section, m: Movement) {
    IsOn(m, section.key) && m.date.Some? && (m.date.value < section.period.from || m.date.value > section.period.to)
  }

  function BeyondTerm(section: Section): Movement -> int {
    (m: Movement) => if IsBeyond(section, m) then 1 else 0
  }

  function DatelessTerm(section: Section): Movement -> int {
    (m: Movement) => if IsOn(m, section.key) && m.date.None? then 1 else 0
  }

  lemma {:induction false} BeyondIsOutside(section: Section, m: Movement)
    ensures IsBeyond(section, m) <==> IsOutside(section, m)
  {
  }

  lemma {:induction false} FitTermsAgree(section: Section, ms: seq<Movement>)
    ensures SumOf(ms, BeyondTerm(section)) == SumOf(ms, OutsideTerm(section))
    ensures SumOf(ms, DatelessTerm(section)) == SumOf(ms, UndatedTerm(section))
  {
    forall m | m in ms
      ensures BeyondTerm(section)(m) == OutsideTerm(section)(m)
    {
      BeyondIsOutside(section, m);
    }
    SumAgrees(ms, BeyondTerm(section), OutsideTerm(section));
    SumAgrees(ms, DatelessTerm(section), UndatedTerm(section));
  }

  /** The first and the last day of the rows beyond the interval. */
  ghost predicate IsBeyondSpan(section: Section, ms: seq<Movement>, span: Option<(int, int)>) {
    match span
    case None => forall m | m in ms :: !IsBeyond(section, m)
    case Some((from, to)) =>
      && (exists m | m in ms :: IsBeyond(section, m) && m.date.value == from)
      && (exists m | m in ms :: IsBeyond(section, m) && m.date.value == to)
      && (forall m | m in ms && IsBeyond(section, m) :: from <= m.date.value <= to)
  }

  /** How a stated interval places the rows: those dated beyond either end, both ends
      themselves inside, those without a date, and the days the former reach. */
  lemma {:induction false} FitIsTheRows(sections: seq<Section>, ms: seq<Movement>, c: Comparison)
    requires Reports(sections, ms, c)
    ensures c.fit.Some? <==> c.stated.Some?
    ensures c.stated.Some? ==>
      && IsFirstFor(sections, c.key, c.stated.value)
      && c.fit.value.outside == SumOf(ms, BeyondTerm(c.stated.value))
      && c.fit.value.undated == SumOf(ms, DatelessTerm(c.stated.value))
      && IsBeyondSpan(c.stated.value, ms, c.fit.value.span)
    ensures c.stated.None? ==> forall i | 0 <= i < |sections| :: sections[i].key != c.key
  {
    ReportIsComparison(sections, ms, c);
    StatedIsFirst(sections, c.key);
    if c.stated.Some? {
      var section := c.stated.value;
      FitAccountsForEveryRow(section, ms);
      FitTermsAgree(section, ms);
      FitSpanIsExact(section, ms);
      forall m
        ensures IsBeyond(section, m) <==> IsOutside(section, m)
      {
        BeyondIsOutside(section, m);
      }
    }
  }

  lemma {:induction false} KeysOfSections(sections: seq<Section>, key: Key)
    ensures key in SectionKeys(sections) <==> exists i | 0 <= i < |sections| :: sections[i].key == key
  {
    if sections != [] {
      var init := sections[..|sections| - 1];
      KeysOfSections(init, key);
      assert forall i | 0 <= i < |init| :: init[i] == sections[i];
    }
  }

  predicate KeyBefore(a: Key, b: Key) {
    a.account < b.account || (a.account == b.account && CurrencyRank(a.currency) < CurrencyRank(b.currency))
  }

  lemma {:induction false} LessIsBefore(a: Key, b: Key)
    requires KeyLe(a, b) && a != b
    ensures KeyBefore(a, b)
  {
    if a.account == b.account && CurrencyRank(a.currency) == CurrencyRank(b.currency) {
      RankIsInjective(a.currency, b.currency);
    }
  }

  ghost predicate IsNamed(sections: seq<Section>, ms: seq<Movement>, key: Key) {
    (exists m | m in ms :: IsOn(m, key)) || (exists i | 0 <= i < |sections| :: sections[i].key == key)
  }

  lemma {:induction false} ComparedIffNamed(sections: seq<Section>, ms: seq<Movement>, key: Key)
    ensures key in ComparedKeys(sections, ms) <==> IsNamed(sections, ms, key)
  {
    InOrderLists(BatchTotals.KeysOf(ms) + SectionKeys(sections), key);
    KeysAreNamed(ms, key);
    KeysOfSections(sections, key);
    assert forall m | m in ms :: BatchTotals.KeyOf(m) == key <==> IsOn(m, key);
  }

  /** A comparison has one entry for each account and currency that a row or a section
      names, by account and then by currency in its declared order. */
  lemma {:induction false} EntriesAreTheKeysNamed(sections: seq<Section>, ms: seq<Movement>)
    requires Compare(sections, ms).Ok?
    ensures var entries := Compare(sections, ms).value;
      && (forall i, j | 0 <= i < j < |entries| :: KeyBefore(entries[i].key, entries[j].key))
      && (forall key :: (exists i | 0 <= i < |entries| :: entries[i].key == key) <==> IsNamed(sections, ms, key))
  {
    CompareIsExact(sections, ms);
    var entries, keys := Compare(sections, ms).value, ComparedKeys(sections, ms);
    forall i | 0 <= i < |entries|
      ensures entries[i].key == keys[i]
    {
      assert IsComparisonOf(sections, ms, keys[i], entries[i]);
    }
    forall i, j | 0 <= i < j < |entries|
      ensures KeyBefore(entries[i].key, entries[j].key)
    {
      LessIsBefore(keys[i], keys[j]);
    }
    forall key
      ensures (exists i | 0 <= i < |entries| :: entries[i].key == key) <==> IsNamed(sections, ms, key)
    {
      ComparedIffNamed(sections, ms, key);
      if key in keys {
        var i :| 0 <= i < |keys| && keys[i] == key;
        assert entries[i].key == key;
      }
    }
  }

  /** A batch cannot be totalled exactly when, on some account and currency, what came
      or what left exceeds the greatest 64-bit amount. */
  lemma {:induction false} TotalOverflowsIff(ms: seq<Movement>)
    ensures TotalsOf(ms).Err? <==>
            exists key :: SumOf(ms, ArrivedTerm(key)) > 0x7FFF_FFFF_FFFF_FFFF || SumOf(ms, LeftTerm(key)) > 0x7FFF_FFFF_FFFF_FFFF
  {
    forall key
      ensures FitsAt(ms, key) <==> SumOf(ms, ArrivedTerm(key)) <= 0x7FFF_FFFF_FFFF_FFFF && SumOf(ms, LeftTerm(key)) <= 0x7FFF_FFFF_FFFF_FFFF
    {
      TermsAgree(ms, key);
    }
    if !AllFit(ms) {
      var key :| !FitsAt(ms, key);
      assert SumOf(ms, ArrivedTerm(key)) > 0x7FFF_FFFF_FFFF_FFFF || SumOf(ms, LeftTerm(key)) > 0x7FFF_FFFF_FFFF_FFFF;
    }
  }
}
