/** The control section a source printed, put beside the rows it was printed
    with (`fit_of`, `checks_for`, `checked` and `compare`). */
module BatchControl {
  import opened Outcomes
  import opened Money
  import opened Sums
  import opened BatchTotals

  /** Inclusive at both ends. */
  datatype Period = Period(from: int, to: int) {

    predicate Contains(date: int) {
      from <= date <= to
    }
  }

  /** The figures a source printed for one account and currency, each optional. */
  datatype Section = Section(
    key: Key,
    period: Period,
    opening: Option<PostedMinor>,
    closing: Option<PostedMinor>,
    debitTurnover: Option<PostedMinor>,
    creditTurnover: Option<PostedMinor>)

  // ---- Figures -----------------------------------------------------------------

  datatype Figure = ClosingBalance | DebitTurnover | CreditTurnover

  datatype NoCounterpart = OpeningBalanceNotStated

  datatype Check =
    | Matched(figure: Figure, claimed: PostedMinor, observed: PostedMinor)
    | Mismatched(figure: Figure, claimed: PostedMinor, observed: PostedMinor, delta: PostedMinor)
    | NotChecked(figure: Figure, claimed: PostedMinor, reason: NoCounterpart)

  function Checked(figure: Figure, claimed: PostedMinor, observed: PostedMinor, currency: CurrencyCode): Result<Check, MoneyError> {
    if claimed == observed then Ok(Matched(figure, claimed, observed))
    else
      match Money(claimed, currency).TrySub(Money(observed, currency))
      case Ok(delta) => Ok(Mismatched(figure, claimed, observed, delta.amount))
      case Err(error) => Err(error)
  }

  /** The checks a turnover figure buys: one if it is stated, none if it is not. */
  function TurnoverChecks(figure: Figure, claimed: Option<PostedMinor>, observed: PostedMinor, currency: CurrencyCode)
    : Result<seq<Check>, MoneyError>
  {
    match claimed
    case None => Ok([])
    case Some(figureClaimed) =>
      match Checked(figure, figureClaimed, observed, currency)
      case Ok(check) => Ok([check])
      case Err(error) => Err(error)
  }

  function ClosingChecks(section: Section, net: PostedMinor): Result<seq<Check>, MoneyError> {
    match (section.closing, section.opening)
    case (None, _) => Ok([])
    case (Some(claimed), None) => Ok([NotChecked(ClosingBalance, claimed, OpeningBalanceNotStated)])
    case (Some(claimed), Some(opening)) =>
      match Money(opening, section.key.currency).TryAdd(Money(net, section.key.currency))
      case Err(error) => Err(error)
      case Ok(derived) => TurnoverChecks(ClosingBalance, Some(claimed), derived.amount, section.key.currency)
  }

  /** Everything one section checks against one total; the first failure stops it. */
  function ChecksFor(section: Section, observed: BatchTotal): Result<seq<Check>, MoneyError> {
    match TurnoverChecks(DebitTurnover, section.debitTurnover, observed.debit, section.key.currency)
    case Err(error) => Err(error)
    case Ok(debit) =>
      match TurnoverChecks(CreditTurnover, section.creditTurnover, observed.credit, section.key.currency)
      case Err(error) => Err(error)
      case Ok(credit) =>
        match ClosingChecks(section, observed.net)
        case Err(error) => Err(error)
        case Ok(closing) => Ok(debit + credit + closing)
  }

  /** The checks, pushed one by one as `checks_for` pushes them. */
  method CollectChecks(section: Section, observed: BatchTotal) returns (r: Result<seq<Check>, MoneyError>)
    ensures r == ChecksFor(section, observed)
  {
    var currency := section.key.currency;
    var checks: seq<Check> := [];
    if section.debitTurnover.Some? {
      var debit := Checked(DebitTurnover, section.debitTurnover.value, observed.debit, currency);
      if debit.Err? {
        return Err(debit.error);
      }
      checks := checks + [debit.value];
    }
    if section.creditTurnover.Some? {
      var credit := Checked(CreditTurnover, section.creditTurnover.value, observed.credit, currency);
      if credit.Err? {
        return Err(credit.error);
      }
      checks := checks + [credit.value];
    }
    if section.closing.Some? {
      if section.opening.Some? {
        var derived := Money(section.opening.value, currency).TryAdd(Money(observed.net, currency));
        if derived.Err? {
          return Err(derived.error);
        }
        var closing := Checked(ClosingBalance, section.closing.value, derived.value.amount, currency);
        if closing.Err? {
          return Err(closing.error);
        }
        checks := checks + [closing.value];
      } else {
        checks := checks + [NotChecked(ClosingBalance, section.closing.value, OpeningBalanceNotStated)];
      }
    }
    assert checks == TurnoverChecks(DebitTurnover, section.debitTurnover, observed.debit, currency).value
                     + TurnoverChecks(CreditTurnover, section.creditTurnover, observed.credit, currency).value
                     + ClosingChecks(section, observed.net).value;
    r := Ok(checks);
  }

  /** A figure and what it is compared with differ by an amount that can be posted. */
  predicate Comparable(claimed: Option<PostedMinor>, observed: int) {
    claimed.Some? ==> Fits(claimed.value - observed)
  }

  predicate ClosingComparable(section: Section, net: PostedMinor) {
    section.closing.Some? && section.opening.Some? ==>
      Fits(section.opening.value + net) && Fits(section.closing.value - (section.opening.value + net))
  }

  /** The order figures are checked in. */
  function FigureRank(figure: Figure): int {
    match figure case DebitTurnover => 0 case CreditTurnover => 1 case ClosingBalance => 2
  }

  ghost predicate InFigureOrder(checks: seq<Check>) {
    forall i, j | 0 <= i < j < |checks| :: FigureRank(checks[i].figure) < FigureRank(checks[j].figure)
  }

  /** A check of two figures: matched exactly when they are equal, and otherwise
      carrying what must be added to the observation to reach the claim. */
  predicate Compares(check: Check, figure: Figure, claimed: int, observed: int) {
    && check.figure == figure && check.claimed as int == claimed
    && !check.NotChecked? && check.observed as int == observed
    && (check.Matched? <==> claimed == observed)
    && (check.Mismatched? ==> check.delta as int + observed == claimed)
  }

  /** Of a figure that is stated there is a check against what was observed. */
  ghost predicate Answers(checks: seq<Check>, figure: Figure, claimed: Option<PostedMinor>, observed: int) {
    if claimed.None? then forall i | 0 <= i < |checks| :: checks[i].figure != figure
    else exists i | 0 <= i < |checks| :: Compares(checks[i], figure, claimed.value as int, observed)
  }

  /** A closing balance is checked against the opening one and the net, and is
      reported as not checked exactly where no opening balance is stated. */
  ghost predicate AnswersClosing(checks: seq<Check>, section: Section, net: PostedMinor) {
    if section.closing.Some? && section.opening.None?
    then NotChecked(ClosingBalance, section.closing.value, OpeningBalanceNotStated) in checks
    else Answers(checks, ClosingBalance, section.closing,
                 if section.opening.Some? then section.opening.value as int + net as int else 0)
  }

  /** The checks of a section against a total: for every figure it states, one. */
  ghost predicate AreTheChecks(checks: seq<Check>, section: Section, observed: BatchTotal) {
    && InFigureOrder(checks)
    && Answers(checks, DebitTurnover, section.debitTurnover, observed.debit)
    && Answers(checks, CreditTurnover, section.creditTurnover, observed.credit)
    && AnswersClosing(checks, section, observed.net)
  }

  /** One figure's checks, alone. */
  lemma {:induction false} TurnoverIsAnswered(figure: Figure, claimed: Option<PostedMinor>, observed: PostedMinor, currency: CurrencyCode)
    ensures var r := TurnoverChecks(figure, claimed, observed, currency);
            && (r.Ok? <==> Comparable(claimed, observed))
            && (r.Err? ==> r.error == Overflow)
            && (r.Ok? ==> (claimed.None? ==> r.value == [])
                          && (claimed.Some? ==> |r.value| == 1 && Compares(r.value[0], figure, claimed.value as int, observed as int)))
  {
  }

  lemma {:induction false} ClosingIsAnswered(section: Section, net: PostedMinor)
    ensures var r := ClosingChecks(section, net);
            && (r.Ok? <==> ClosingComparable(section, net))
            && (r.Err? ==> r.error == Overflow)
            && (r.Ok? ==> AnswersClosing(r.value, section, net) && |r.value| <= 1
                          && forall i | 0 <= i < |r.value| :: r.value[i].figure == ClosingBalance)
  {
    if section.closing.Some? && section.opening.Some? && Fits(section.opening.value + net) {
      TurnoverIsAnswered(ClosingBalance, section.closing, section.opening.value + net, section.key.currency);
    }
  }

  /** Checking a section fails only where a difference or a derived balance cannot
      be posted. Otherwise its checks are the ones its figures ask for: each claim
      is the section's own, each observation the total's, and the two match exactly
      when they are equal. */
  lemma {:induction false} ChecksAreFaithful(section: Section, observed: BatchTotal)
    ensures var r := ChecksFor(section, observed);
            && (r.Ok? <==> && Comparable(section.debitTurnover, observed.debit)
                           && Comparable(section.creditTurnover, observed.credit)
                           && ClosingComparable(section, observed.net))
            && (r.Err? ==> r.error == Overflow)
            && (r.Ok? ==> AreTheChecks(r.value, section, observed))
  {
    var currency := section.key.currency;
    TurnoverIsAnswered(DebitTurnover, section.debitTurnover, observed.debit, currency);
    TurnoverIsAnswered(CreditTurnover, section.creditTurnover, observed.credit, currency);
    ClosingIsAnswered(section, observed.net);
    var r := ChecksFor(section, observed);
    if r.Ok? {
      var debit := TurnoverChecks(DebitTurnover, section.debitTurnover, observed.debit, currency).value;
      var credit := TurnoverChecks(CreditTurnover, section.creditTurnover, observed.credit, currency).value;
      JoinedChecksAnswer(section, observed, debit, credit, ClosingChecks(section, observed.net).value);
    }
  }

  lemma {:induction false} JoinedChecksAnswer(section: Section, observed: BatchTotal,
                                              debit: seq<Check>, credit: seq<Check>, closing: seq<Check>)
    requires |debit| <= 1 && |credit| <= 1 && |closing| <= 1
    requires if section.debitTurnover.None? then debit == []
             else debit != [] && Compares(debit[0], DebitTurnover, section.debitTurnover.value as int, observed.debit as int)
    requires if section.creditTurnover.None? then credit == []
             else credit != [] && Compares(credit[0], CreditTurnover, section.creditTurnover.value as int, observed.credit as int)
    requires AnswersClosing(closing, section, observed.net)
    requires forall i | 0 <= i < |closing| :: closing[i].figure == ClosingBalance
    ensures AreTheChecks(debit + credit + closing, section, observed)
  {
    var all := debit + credit + closing;
    if debit != [] {
      assert all[0] == debit[0];
    }
    if credit != [] {
      assert all[|debit|] == credit[0];
    }
    if closing != [] {
      assert all[|debit| + |credit|] == closing[0];
    }
  }

  lemma {:induction false} OnePerFigure(checks: seq<Check>, i: nat, k: nat)
    requires InFigureOrder(checks) && i < |checks| && k < |checks| && checks[i].figure == checks[k].figure
    ensures i == k
  {
  }

  lemma {:induction false} CheckIsThere(a: seq<Check>, b: seq<Check>, section: Section, observed: BatchTotal, i: nat)
    requires AreTheChecks(a, section, observed) && AreTheChecks(b, section, observed) && i < |a|
    ensures a[i] in b
  {
    forall k | 0 <= k < |a| && a[k].figure == a[i].figure
      ensures k == i
    {
      OnePerFigure(a, i, k);
    }
  }

  ghost predicate SameMembers(a: seq<Check>, b: seq<Check>) {
    forall c :: c in a <==> c in b
  }

  lemma {:induction false} LastChecksAgree(a: seq<Check>, b: seq<Check>)
    requires InFigureOrder(a) && InFigureOrder(b) && SameMembers(a, b) && a != []
    ensures b != [] && b[|b| - 1] == a[|a| - 1]
  {
    assert a[|a| - 1] in b;
    assert b[|b| - 1] in a;
  }

  lemma {:induction false} NotAmongEarlier(checks: seq<Check>, x: Check)
    requires InFigureOrder(checks + [x])
    ensures InFigureOrder(checks) && x !in checks
  {
    var all := checks + [x];
    assert all[|checks|] == x;
    assert forall i | 0 <= i < |checks| :: checks[i] == all[i];
  }

  lemma {:induction false} EarlierChecksAgree(a: seq<Check>, b: seq<Check>, x: Check)
    requires InFigureOrder(a + [x]) && InFigureOrder(b + [x]) && SameMembers(a + [x], b + [x])
    ensures InFigureOrder(a) && InFigureOrder(b) && SameMembers(a, b)
  {
    NotAmongEarlier(a, x);
    NotAmongEarlier(b, x);
    forall c
      ensures c in a <==> c in b
    {
      assert c in a + [x] <==> c in b + [x];
    }
  }

  lemma {:induction false} SameChecks(a: seq<Check>, b: seq<Check>)
    requires InFigureOrder(a) && InFigureOrder(b) && SameMembers(a, b)
    ensures a == b
    decreases |a|
  {
    assert b != [] ==> b[0] in b;
    if a != [] {
      LastChecksAgree(a, b);
      var init, init', x := a[..|a| - 1], b[..|b| - 1], a[|a| - 1];
      assert a == init + [x] && b == init' + [x];
      EarlierChecksAgree(init, init', x);
      SameChecks(init, init');
    }
  }

  /** What a section and a total ask for leaves no freedom: one list of checks meets it. */
  lemma {:induction false} ChecksAreDetermined(a: seq<Check>, b: seq<Check>, section: Section, observed: BatchTotal)
    requires AreTheChecks(a, section, observed) && AreTheChecks(b, section, observed)
    ensures a == b
  {
    forall c: Check
      ensures c in a <==> c in b
    {
      if i :| 0 <= i < |a| && a[i] == c {
        CheckIsThere(a, b, section, observed, i);
      }
      if i :| 0 <= i < |b| && b[i] == c {
        CheckIsThere(b, a, section, observed, i);
      }
    }
    SameChecks(a, b);
  }

  /** The closing check of a section, where both balances are stated. */
  predicate ClosingMatches(section: Section, observed: BatchTotal) {
    && section.opening.Some? && section.closing.Some?
    && ClosingChecks(section, observed.net)
       == Ok([Matched(ClosingBalance, section.closing.value, section.closing.value)])
  }

  lemma {:induction false} ClosingMatchesIff(section: Section, observed: BatchTotal)
    requires section.opening.Some? && section.closing.Some?
    ensures ClosingMatches(section, observed) <==> section.opening.value + observed.net == section.closing.value
  {
  }

  /** Statements compose: where one statement is borne out by its own rows and closes
      on what the next opens with, the next is borne out by its rows exactly when the
      two together are by the rows of both. */
  lemma {:induction false} ClosingChecksCompose(first: Section, second: Section, whole: Section, ms: seq<Movement>, more: seq<Movement>)
    requires first.key == second.key == whole.key
    requires FitsAt(ms, whole.key) && FitsAt(more, whole.key) && FitsAt(ms + more, whole.key)
    requires ClosingMatches(first, TotalAt(ms, whole.key))
    requires first.closing == second.opening
    requires whole.opening == first.opening && whole.closing == second.closing
    ensures ClosingMatches(second, TotalAt(more, whole.key)) <==> ClosingMatches(whole, TotalAt(ms + more, whole.key))
  {
    var key := whole.key;
    SumConcat(ms, more, Arrived(key));
    SumConcat(ms, more, Departed(key));
    SumConcat(ms, more, Counted(key));
    if second.closing.Some? {
      ClosingMatchesIff(first, TotalAt(ms, key));
      ClosingMatchesIff(second, TotalAt(more, key));
      ClosingMatchesIff(whole, TotalAt(ms + more, key));
    }
  }

  // ---- The interval ------------------------------------------------------------

  datatype IntervalFit = IntervalFit(outside: nat, undated: nat, span: Option<(int, int)>)

  function Min(a: int, b: int): int {
    if a <= b then a else b
  }

  function Max(a: int, b: int): int {
    if a >= b then a else b
  }

  /** What one movement changes in the fit so far. */
  function Placing(section: Section, fit: IntervalFit, m: Movement): IntervalFit {
    if KeyOf(m) != section.key then fit
    else if m.date.None? then fit.(undated := fit.undated + 1)
    else if section.period.Contains(m.date.value) then fit
    else
      var date := m.date.value;
      IntervalFit(fit.outside + 1, fit.undated,
                  match fit.span
                  case None => Some((date, date))
                  case Some((from, to)) => Some((Min(from, date), Max(to, date))))
  }

  function FitOf(section: Section, ms: seq<Movement>): IntervalFit {
    if ms == [] then IntervalFit(0, 0, None)
    else Placing(section, FitOf(section, ms[..|ms| - 1]), ms[|ms| - 1])
  }

  method ComputeFit(section: Section, ms: seq<Movement>) returns (fit: IntervalFit)
    ensures fit == FitOf(section, ms)
  {
    var outside, undated: nat, span := 0, 0, None;
    for i := 0 to |ms|
      invariant IntervalFit(outside, undated, span) == FitOf(section, ms[..i])
    {
      var m := ms[i];
      assert ms[..i + 1][..i] == ms[..i];
      if !(m.account == section.key.account && m.amount.currency == section.key.currency) {
        continue;
      }
      if m.date.None? {
        undated := undated + 1;
        continue;
      }
      var date := m.date.value;
      if section.period.Contains(date) {
        continue;
      }
      outside := outside + 1;
      span := match span
        case None => Some((date, date))
        case Some((from, to)) => Some((Min(from, date), Max(to, date)));
    }
    assert ms[..|ms|] == ms;
    fit := IntervalFit(outside, undated, span);
  }

  predicate IsOutside(section: Section, m: Movement) {
    KeyOf(m) == section.key && m.date.Some? && !section.period.Contains(m.date.value)
  }

  function InsideTerm(section: Section): Movement -> int {
    (m: Movement) => if KeyOf(m) == section.key && m.date.Some? && section.period.Contains(m.date.value) then 1 else 0
  }

  function OutsideTerm(section: Section): Movement -> int {
    (m: Movement) => if IsOutside(section, m) then 1 else 0
  }

  function UndatedTerm(section: Section): Movement -> int {
    (m: Movement) => if KeyOf(m) == section.key && m.date.None? then 1 else 0
  }

  /** The span is exactly the earliest and the latest day outside. */
  ghost predicate IsOutsideSpan(section: Section, ms: seq<Movement>, span: Option<(int, int)>) {
    match span
    case None => forall m | m in ms :: !IsOutside(section, m)
    case Some((from, to)) =>
      && (exists m | m in ms :: IsOutside(section, m) && m.date.value == from)
      && (exists m | m in ms :: IsOutside(section, m) && m.date.value == to)
      && (forall m | m in ms && IsOutside(section, m) :: from <= m.date.value <= to)
  }

  /** The fit counts the key's movements outside the period and those without a
      date, each on its own; with the ones inside they are the rows of the total. */
  lemma {:induction false} FitAccountsForEveryRow(section: Section, ms: seq<Movement>)
    ensures FitOf(section, ms).outside == SumOf(ms, OutsideTerm(section))
    ensures FitOf(section, ms).undated == SumOf(ms, UndatedTerm(section))
    ensures SumOf(ms, OutsideTerm(section)) + SumOf(ms, UndatedTerm(section)) + SumOf(ms, InsideTerm(section)) == Rows(ms, section.key)
  {
    if ms != [] {
      var init, last := ms[..|ms| - 1], ms[|ms| - 1];
      FitAccountsForEveryRow(section, init);
      assert ms == init + [last];
      SumsSnoc(init, last, section.key);
      SumSnoc(init, last, InsideTerm(section));
      SumSnoc(init, last, OutsideTerm(section));
      SumSnoc(init, last, UndatedTerm(section));
    }
  }

  lemma {:induction false} SpanSnoc(section: Section, ms: seq<Movement>, m: Movement, span: Option<(int, int)>)
    requires IsOutsideSpan(section, ms, span)
    ensures !IsOutside(section, m) ==> IsOutsideSpan(section, ms + [m], span)
    ensures IsOutside(section, m) ==>
              IsOutsideSpan(section, ms + [m],
                            match span
                            case None => Some((m.date.value, m.date.value))
                            case Some((from, to)) => Some((Min(from, m.date.value), Max(to, m.date.value))))
  {
    assert m in ms + [m];
    match span
    case None =>
    case Some((from, to)) =>
      var a :| a in ms && IsOutside(section, a) && a.date.value == from;
      var b :| b in ms && IsOutside(section, b) && b.date.value == to;
      assert a in ms + [m] && b in ms + [m];
  }

  lemma {:induction false} FitSpanIsExact(section: Section, ms: seq<Movement>)
    ensures IsOutsideSpan(section, ms, FitOf(section, ms).span)
    ensures FitOf(section, ms).span.None? <==> FitOf(section, ms).outside == 0
  {
    if ms != [] {
      var init, last := ms[..|ms| - 1], ms[|ms| - 1];
      FitSpanIsExact(section, init);
      SpanSnoc(section, init, last, FitOf(section, init).span);
      assert ms == init + [last];
    }
  }
}
