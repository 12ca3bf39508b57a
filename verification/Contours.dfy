/** An event's relation to a contour, and what crosses a contour's boundary. */
module Contours {
  import opened Money
  import opened Sums

  datatype Contour = Contour(id: int, version: int, accounts: set<int>)

  datatype FlowEndpoints =
    | InboundFromOutside
    | OutboundToOutside
    | BetweenAccounts(source: int, target: int)
    | OwnAccountUnnamed
    | WithinAccount

  /** The cash effect of one leg. */
  datatype Effect = Effect(account: int, amount: Money)

  /** What classification and the flow series read of an event. */
  datatype Event = Event(account: int, endpoints: FlowEndpoints, effects: seq<Effect>)

  datatype FlowClass =
    | ExternalIn(contour: int, version: int)
    | ExternalOut(contour: int, version: int)
    | Internal
    | Indeterminate(contour: int, version: int)
    | Irrelevant

  predicate Contains(c: Contour, account: int) {
    account in c.accounts
  }

  function Classify(c: Contour, e: Event): FlowClass {
    match e.endpoints
    case InboundFromOutside => if Contains(c, e.account) then ExternalIn(c.id, c.version) else Irrelevant
    case OutboundToOutside => if Contains(c, e.account) then ExternalOut(c.id, c.version) else Irrelevant
    case BetweenAccounts(source, target) =>
      if Contains(c, source) then (if Contains(c, target) then Internal else ExternalOut(c.id, c.version))
      else (if Contains(c, target) then ExternalIn(c.id, c.version) else Irrelevant)
    case OwnAccountUnnamed => if Contains(c, e.account) then Indeterminate(c.id, c.version) else Irrelevant
    case WithinAccount => if Contains(c, e.account) then Internal else Irrelevant
  }

  // ---- Amounts ------------------------------------------------------------------------

  function OnContour(c: Contour, currency: CurrencyCode): Effect -> int {
    (x: Effect) => if Contains(c, x.account) && x.amount.currency == currency then x.amount.amount as int else 0
  }

  function Anywhere(currency: CurrencyCode): Effect -> int {
    (x: Effect) => if x.amount.currency == currency then x.amount.amount as int else 0
  }

  predicate IsExternal(relation: FlowClass) {
    relation.ExternalIn? || relation.ExternalOut?
  }

  /** What an event adds to the external flows of a contour: its cash effect on the
      contour's accounts, if it crosses the boundary. */
  ghost function FlowOf(c: Contour, currency: CurrencyCode, e: Event): int {
    if IsExternal(Classify(c, e)) then SumOf(e.effects, OnContour(c, currency)) else 0
  }

  ghost function Flow(c: Contour, currency: CurrencyCode): Event -> int {
    (e: Event) => FlowOf(c, currency, e)
  }

  ghost function NetFlow(c: Contour, currency: CurrencyCode, journal: seq<Event>): int {
    SumOf(journal, Flow(c, currency))
  }

  predicate Disjoint(a: Contour, b: Contour) {
    a.accounts !! b.accounts
  }

  predicate IsUnion(u: Contour, a: Contour, b: Contour) {
    u.accounts == a.accounts + b.accounts
  }

  /** A transfer with one end in each of two contours. */
  predicate Joins(a: Contour, b: Contour, e: Event) {
    e.endpoints.BetweenAccounts?
    && ((Contains(a, e.endpoints.source) && Contains(b, e.endpoints.target))
        || (Contains(b, e.endpoints.source) && Contains(a, e.endpoints.target)))
  }

  ghost function On(c: Contour, currency: CurrencyCode, e: Event): int {
    SumOf(e.effects, OnContour(c, currency))
  }

  /** What keeps two contours' flows of one event from adding up: the legs of a
      transfer between them, or the legs an event has on the contour it does not cross. */
  ghost function Leftover(a: Contour, b: Contour, currency: CurrencyCode): Event -> int {
    (e: Event) =>
      if Joins(a, b, e) then On(a, currency, e) + On(b, currency, e)
      else if IsExternal(Classify(a, e)) then 0 - On(b, currency, e)
      else if IsExternal(Classify(b, e)) then 0 - On(a, currency, e)
      else 0
  }

  lemma {:induction false} EffectsAddUp(u: Contour, a: Contour, b: Contour, currency: CurrencyCode, effects: seq<Effect>)
    requires Disjoint(a, b) && IsUnion(u, a, b)
    ensures SumOf(effects, OnContour(u, currency)) == SumOf(effects, OnContour(a, currency)) + SumOf(effects, OnContour(b, currency))
  {
    if effects != [] {
      EffectsAddUp(u, a, b, currency, effects[..|effects| - 1]);
      var account := effects[|effects| - 1].account;
      assert Contains(a, account) ==> !Contains(b, account);
    }
  }

  /** One event, two disjoint contours: what crosses the two boundaries is what crosses
      the boundary around both, plus the event's leftover. */
  lemma {:induction false} EventFlowAdds(u: Contour, a: Contour, b: Contour, currency: CurrencyCode, e: Event)
    requires Disjoint(a, b) && IsUnion(u, a, b)
    ensures FlowOf(a, currency, e) + FlowOf(b, currency, e) == FlowOf(u, currency, e) + Leftover(a, b, currency)(e)
  {
    EffectsAddUp(u, a, b, currency, e.effects);
    match e.endpoints
    case BetweenAccounts(source, target) =>
      assert Contains(a, source) ==> !Contains(b, source);
      assert Contains(a, target) ==> !Contains(b, target);
    case _ =>
      assert Contains(a, e.account) ==> !Contains(b, e.account);
  }

  /** Net external flow over every journal, exactly: two disjoint contours add up to
      their union and the leftovers of the events. */
  lemma {:induction false} NetFlowAddsUpTo(u: Contour, a: Contour, b: Contour, currency: CurrencyCode, journal: seq<Event>)
    requires Disjoint(a, b) && IsUnion(u, a, b)
    ensures NetFlow(a, currency, journal) + NetFlow(b, currency, journal)
         == NetFlow(u, currency, journal) + SumOf(journal, Leftover(a, b, currency))
  {
    if journal != [] {
      NetFlowAddsUpTo(u, a, b, currency, journal[..|journal| - 1]);
      EventFlowAdds(u, a, b, currency, journal[|journal| - 1]);
    }
  }

  ghost predicate AddsUp(u: Contour, a: Contour, b: Contour, currency: CurrencyCode, journal: seq<Event>) {
    NetFlow(u, currency, journal) == NetFlow(a, currency, journal) + NetFlow(b, currency, journal)
  }

  /** No event leaves anything over between two contours. */
  ghost predicate NothingLeft(a: Contour, b: Contour, currency: CurrencyCode, journal: seq<Event>) {
    forall i | 0 <= i < |journal| :: Leftover(a, b, currency)(journal[i]) == 0
  }

  lemma {:induction false} NothingLeftAddsUp(u: Contour, a: Contour, b: Contour, currency: CurrencyCode, journal: seq<Event>, n: nat)
    requires Disjoint(a, b) && IsUnion(u, a, b) && NothingLeft(a, b, currency, journal) && n <= |journal|
    ensures AddsUp(u, a, b, currency, journal[..n])
  {
    if n > 0 {
      NothingLeftAddsUp(u, a, b, currency, journal, n - 1);
      assert journal[..n][..n - 1] == journal[..n - 1];
      EventFlowAdds(u, a, b, currency, journal[n - 1]);
      assert Leftover(a, b, currency)(journal[n - 1]) == 0;
    }
  }

  /** Flows add up at every point of a journal exactly when no event of it leaves
      anything over. */
  lemma {:induction false} NetFlowAddsUpIff(u: Contour, a: Contour, b: Contour, currency: CurrencyCode, journal: seq<Event>)
    requires Disjoint(a, b) && IsUnion(u, a, b)
    ensures (forall n | 0 <= n <= |journal| :: AddsUp(u, a, b, currency, journal[..n])) <==> NothingLeft(a, b, currency, journal)
  {
    if NothingLeft(a, b, currency, journal) {
      forall n | 0 <= n <= |journal|
        ensures AddsUp(u, a, b, currency, journal[..n])
      {
        NothingLeftAddsUp(u, a, b, currency, journal, n);
      }
    }
    if forall n | 0 <= n <= |journal| :: AddsUp(u, a, b, currency, journal[..n]) {
      forall i | 0 <= i < |journal|
        ensures Leftover(a, b, currency)(journal[i]) == 0
      {
        assert AddsUp(u, a, b, currency, journal[..i]) && AddsUp(u, a, b, currency, journal[..i + 1]);
        assert journal[..i + 1][..i] == journal[..i];
        EventFlowAdds(u, a, b, currency, journal[i]);
      }
    }
  }

  // ---- Journals whose legs are where their events say ------------------------------------

  /** The accounts an event names. */
  function AccountsOf(e: Event): set<int> {
    match e.endpoints
    case BetweenAccounts(source, target) => {source, target}
    case _ => {e.account}
  }

  ghost predicate AllOn(effects: seq<Effect>, accounts: set<int>) {
    forall i | 0 <= i < |effects| :: effects[i].account in accounts
  }

  /** The legs of an event sit on the accounts it names. */
  ghost predicate WellPlaced(e: Event) {
    AllOn(e.effects, AccountsOf(e))
  }

  ghost predicate AllPlaced(journal: seq<Event>) {
    forall i | 0 <= i < |journal| :: WellPlaced(journal[i])
  }

  /** Both legs of every transfer cancel. */
  ghost predicate TransfersBalance(journal: seq<Event>) {
    forall i, currency | 0 <= i < |journal| && journal[i].endpoints.BetweenAccounts? ::
      SumOf(journal[i].effects, Anywhere(currency)) == 0
  }

  lemma {:induction false} NothingOutside(c: Contour, currency: CurrencyCode, effects: seq<Effect>, accounts: set<int>)
    requires AllOn(effects, accounts) && c.accounts !! accounts
    ensures SumOf(effects, OnContour(c, currency)) == 0
  {
    if effects != [] {
      NothingOutside(c, currency, effects[..|effects| - 1], accounts);
      assert effects[|effects| - 1].account in accounts;
    }
  }

  lemma {:induction false} EverythingInside(c: Contour, currency: CurrencyCode, effects: seq<Effect>)
    requires AllOn(effects, c.accounts)
    ensures SumOf(effects, OnContour(c, currency)) == SumOf(effects, Anywhere(currency))
  {
    if effects != [] {
      EverythingInside(c, currency, effects[..|effects| - 1]);
      assert effects[|effects| - 1].account in c.accounts;
    }
  }

  lemma {:induction false} PlacedLeavesNothing(a: Contour, b: Contour, currency: CurrencyCode, e: Event)
    requires Disjoint(a, b) && WellPlaced(e)
    requires e.endpoints.BetweenAccounts? ==> SumOf(e.effects, Anywhere(currency)) == 0
    ensures Leftover(a, b, currency)(e) == 0
  {
    if Joins(a, b, e) {
      var u := Contour(0, 0, a.accounts + b.accounts);
      EffectsAddUp(u, a, b, currency, e.effects);
      EverythingInside(u, currency, e.effects);
    } else if IsExternal(Classify(a, e)) {
      assert b.accounts !! AccountsOf(e);
      NothingOutside(b, currency, e.effects, AccountsOf(e));
    } else if IsExternal(Classify(b, e)) {
      assert a.accounts !! AccountsOf(e);
      NothingOutside(a, currency, e.effects, AccountsOf(e));
    }
  }

  /** Net external flow is additive over a journal whose legs sit on the accounts its
      events name and whose transfers cancel. */
  lemma {:induction false} NetFlowIsAdditive(u: Contour, a: Contour, b: Contour, currency: CurrencyCode, journal: seq<Event>)
    requires Disjoint(a, b) && IsUnion(u, a, b) && AllPlaced(journal) && TransfersBalance(journal)
    ensures AddsUp(u, a, b, currency, journal)
  {
    forall i | 0 <= i < |journal|
      ensures Leftover(a, b, currency)(journal[i]) == 0
    {
      PlacedLeavesNothing(a, b, currency, journal[i]);
    }
    NothingLeftAddsUp(u, a, b, currency, journal, |journal|);
    assert journal[..|journal|] == journal;
  }

  lemma {:induction false} OneEvent(c: Contour, currency: CurrencyCode, e: Event, x: Effect)
    requires e.effects == [x]
    ensures NetFlow(c, currency, [e]) == if IsExternal(Classify(c, e)) then OnContour(c, currency)(x) else 0
  {
    SumSnoc([], e, Flow(c, currency));
    SumSnoc([], x, OnContour(c, currency));
    assert [] + [e] == [e] && [] + [x] == e.effects;
  }

  /** Money filed on one account with its leg on another crosses no single account's
      boundary, and crosses that of the two together. */
  lemma {:induction false} MisplacedLegBreaksAdditivity(account: int, other: int, amount: Money)
    requires account != other && amount.amount != 0
    ensures var journal := [Event(account, InboundFromOutside, [Effect(other, amount)])];
      !AddsUp(Contour(0, 0, {account, other}), Contour(0, 0, {account}), Contour(0, 0, {other}), amount.currency, journal)
  {
    var x := Effect(other, amount);
    var e := Event(account, InboundFromOutside, [x]);
    OneEvent(Contour(0, 0, {account, other}), amount.currency, e, x);
    OneEvent(Contour(0, 0, {account}), amount.currency, e, x);
    OneEvent(Contour(0, 0, {other}), amount.currency, e, x);
  }

  // ---- A contour and its accounts ---------------------------------------------------------

  function SetOf(accounts: seq<int>): set<int> {
    set i | 0 <= i < |accounts| :: accounts[i]
  }

  function Alone(account: int): Contour {
    Contour(0, 0, {account})
  }

  ghost function FlowOfAccount(currency: CurrencyCode, journal: seq<Event>): int -> int {
    (account: int) => NetFlow(Alone(account), currency, journal)
  }

  ghost predicate AllDifferent(accounts: seq<int>) {
    forall i, j | 0 <= i < j < |accounts| :: accounts[i] != accounts[j]
  }

  /** What keeps the accounts of a contour from adding up to it, account by account:
      each joins the ones before it with the leftover of those two contours. */
  ghost function Leftovers(accounts: seq<int>, currency: CurrencyCode, journal: seq<Event>): int {
    if accounts == [] then 0
    else
      var init, last := accounts[..|accounts| - 1], accounts[|accounts| - 1];
      Leftovers(init, currency, journal) + SumOf(journal, Leftover(Contour(0, 0, SetOf(init)), Alone(last), currency))
  }

  lemma {:induction false} NoAccountsNoFlow(c: Contour, currency: CurrencyCode, journal: seq<Event>)
    requires c.accounts == {}
    ensures NetFlow(c, currency, journal) == 0
  {
    if journal != [] {
      NoAccountsNoFlow(c, currency, journal[..|journal| - 1]);
    }
  }

  lemma {:induction false} LastAccountIsNew(accounts: seq<int>)
    requires AllDifferent(accounts) && accounts != []
    ensures var init, last := accounts[..|accounts| - 1], accounts[|accounts| - 1];
      SetOf(accounts) == SetOf(init) + {last} && last !in SetOf(init) && AllDifferent(init)
  {
    var init, last := accounts[..|accounts| - 1], accounts[|accounts| - 1];
    SetSnoc(init, last);
    assert accounts == init + [last];
  }

  /** The accounts of a contour add up to it and their leftovers, over every journal. */
  lemma {:induction false} AccountsAddUpTo(c: Contour, accounts: seq<int>, currency: CurrencyCode, journal: seq<Event>)
    requires c.accounts == SetOf(accounts) && AllDifferent(accounts)
    ensures SumOf(accounts, FlowOfAccount(currency, journal))
         == NetFlow(c, currency, journal) + Leftovers(accounts, currency, journal)
    decreases |accounts|
  {
    if accounts == [] {
      NoAccountsNoFlow(c, currency, journal);
    } else {
      var init, last := accounts[..|accounts| - 1], accounts[|accounts| - 1];
      var rest := Contour(0, 0, SetOf(init));
      LastAccountIsNew(accounts);
      AccountsAddUpTo(rest, init, currency, journal);
      NetFlowAddsUpTo(c, rest, Alone(last), currency, journal);
    }
  }

  /** Where legs sit on the accounts their events name and transfers cancel, the flow of
      a contour is the sum of its accounts' flows. */
  lemma {:induction false} ContourIsSumOfAccounts(c: Contour, accounts: seq<int>, currency: CurrencyCode, journal: seq<Event>)
    requires c.accounts == SetOf(accounts) && AllDifferent(accounts)
    requires AllPlaced(journal) && TransfersBalance(journal)
    ensures NetFlow(c, currency, journal) == SumOf(accounts, FlowOfAccount(currency, journal))
    decreases |accounts|
  {
    if accounts == [] {
      NoAccountsNoFlow(c, currency, journal);
    } else {
      var init, last := accounts[..|accounts| - 1], accounts[|accounts| - 1];
      var rest := Contour(0, 0, SetOf(init));
      LastAccountIsNew(accounts);
      ContourIsSumOfAccounts(rest, init, currency, journal);
      NetFlowIsAdditive(c, rest, Alone(last), currency, journal);
    }
  }

  lemma {:induction false} SetSnoc(accounts: seq<int>, account: int)
    ensures SetOf(accounts + [account]) == SetOf(accounts) + {account}
  {
    var extended := accounts + [account];
    forall x
      ensures x in SetOf(extended) <==> x in SetOf(accounts) + {account}
    {
      if x in SetOf(accounts) {
        var i :| 0 <= i < |accounts| && accounts[i] == x;
        assert extended[i] == x;
      }
      assert extended[|accounts|] == account;
    }
  }

  // ---- Movements that cannot be placed -----------------------------------------------------

  predicate CannotPlace(c: Contour, e: Event) {
    Classify(c, e).Indeterminate?
  }

  ghost function IndeterminateAt(c: Contour, journal: seq<Event>): set<int> {
    set i | 0 <= i < |journal| && CannotPlace(c, journal[i])
  }

  lemma {:induction false} CannotPlaceAddsUp(u: Contour, a: Contour, b: Contour, e: Event)
    requires Disjoint(a, b) && IsUnion(u, a, b)
    ensures CannotPlace(u, e) <==> CannotPlace(a, e) || CannotPlace(b, e)
    ensures !(CannotPlace(a, e) && CannotPlace(b, e))
  {
    assert Contains(a, e.account) ==> !Contains(b, e.account);
  }

  lemma {:induction false} DisjointSizes<T>(a: set<T>, b: set<T>)
    requires a !! b
    ensures |a + b| == |a| + |b|
  {
  }

  /** What cannot be placed adds up too: the events the union cannot place are those
      one of the two cannot, and no event is both. */
  lemma {:induction false} IndeterminateAddsUp(u: Contour, a: Contour, b: Contour, journal: seq<Event>)
    requires Disjoint(a, b) && IsUnion(u, a, b)
    ensures IndeterminateAt(u, journal) == IndeterminateAt(a, journal) + IndeterminateAt(b, journal)
    ensures IndeterminateAt(a, journal) !! IndeterminateAt(b, journal)
    ensures |IndeterminateAt(u, journal)| == |IndeterminateAt(a, journal)| + |IndeterminateAt(b, journal)|
  {
    forall i | 0 <= i < |journal|
      ensures CannotPlace(u, journal[i]) <==> CannotPlace(a, journal[i]) || CannotPlace(b, journal[i])
      ensures !(CannotPlace(a, journal[i]) && CannotPlace(b, journal[i]))
    {
      CannotPlaceAddsUp(u, a, b, journal[i]);
    }
    DisjointSizes(IndeterminateAt(a, journal), IndeterminateAt(b, journal));
  }

  // ---- Widening --------------------------------------------------------------------------

  /** Adding accounts to a contour settles nothing by declaration: what was internal or
      undecidable stays so, a crossing stays a crossing of the same direction unless its
      other end was added, and only an unnamed far side is ever undecidable. */
  lemma {:induction false} WideningDecidesNothing(narrow: Contour, wide: Contour, e: Event)
    requires narrow.accounts <= wide.accounts
    ensures Classify(narrow, e).Internal? ==> Classify(wide, e).Internal?
    ensures Classify(narrow, e).Indeterminate? ==> Classify(wide, e).Indeterminate?
    ensures Classify(wide, e).Indeterminate? <==> e.endpoints.OwnAccountUnnamed? && Contains(wide, e.account)
    ensures Classify(wide, e).Irrelevant? ==> Classify(narrow, e).Irrelevant?
    ensures Classify(narrow, e).ExternalIn? ==>
              (Classify(wide, e).Internal? <==> e.endpoints.BetweenAccounts? && Contains(wide, e.endpoints.source))
              && (Classify(wide, e).Internal? || Classify(wide, e).ExternalIn?)
    ensures Classify(narrow, e).ExternalOut? ==>
              (Classify(wide, e).Internal? <==> e.endpoints.BetweenAccounts? && Contains(wide, e.endpoints.target))
              && (Classify(wide, e).Internal? || Classify(wide, e).ExternalOut?)
  {
  }

  // ---- Directions -----------------------------------------------------------------------

  /** Money comes in: from outside to an account of the contour, or from an account that
      is not one of its to one that is. */
  predicate ComesIn(c: Contour, e: Event) {
    match e.endpoints
    case InboundFromOutside => e.account in c.accounts
    case BetweenAccounts(source, target) => source !in c.accounts && target in c.accounts
    case _ => false
  }

  predicate GoesOut(c: Contour, e: Event) {
    match e.endpoints
    case OutboundToOutside => e.account in c.accounts
    case BetweenAccounts(source, target) => source in c.accounts && target !in c.accounts
    case _ => false
  }

  predicate StaysWithin(c: Contour, e: Event) {
    match e.endpoints
    case WithinAccount => e.account in c.accounts
    case BetweenAccounts(source, target) => source in c.accounts && target in c.accounts
    case _ => false
  }

  function CashOn(c: Contour, currency: CurrencyCode): Effect -> int {
    (x: Effect) => if x.account in c.accounts && x.amount.currency == currency then x.amount.amount as int else 0
  }

  ghost function CashIn(c: Contour, currency: CurrencyCode): Event -> int {
    (e: Event) => if ComesIn(c, e) then SumOf(e.effects, CashOn(c, currency)) else 0
  }

  ghost function CashOut(c: Contour, currency: CurrencyCode): Event -> int {
    (e: Event) => if GoesOut(c, e) then SumOf(e.effects, CashOn(c, currency)) else 0
  }

  lemma {:induction false} CashOnIsOnContour(c: Contour, currency: CurrencyCode, effects: seq<Effect>)
    ensures SumOf(effects, CashOn(c, currency)) == SumOf(effects, OnContour(c, currency))
  {
    SumAgrees(effects, CashOn(c, currency), OnContour(c, currency));
  }

  /** The relation of an event to a contour, in full: a crossing names the contour, its
      version and the direction, and so does what cannot be decided. */
  lemma {:induction false} RelationIs(c: Contour, e: Event)
    ensures Classify(c, e) == ExternalIn(c.id, c.version) <==> ComesIn(c, e)
    ensures Classify(c, e) == ExternalOut(c.id, c.version) <==> GoesOut(c, e)
    ensures Classify(c, e) == Internal <==> StaysWithin(c, e)
    ensures Classify(c, e) == Indeterminate(c.id, c.version) <==> e.endpoints.OwnAccountUnnamed? && e.account in c.accounts
    ensures IsExternal(Classify(c, e)) <==> ComesIn(c, e) || GoesOut(c, e)
  {
  }

  /** Net flow is what came in and what went out, over every journal. */
  lemma {:induction false} FlowsAreDirected(c: Contour, currency: CurrencyCode, journal: seq<Event>)
    ensures NetFlow(c, currency, journal) == SumOf(journal, CashIn(c, currency)) + SumOf(journal, CashOut(c, currency))
  {
    if journal != [] {
      var last := journal[|journal| - 1];
      FlowsAreDirected(c, currency, journal[..|journal| - 1]);
      CashOnIsOnContour(c, currency, last.effects);
      RelationIs(c, last);
      assert !(ComesIn(c, last) && GoesOut(c, last));
    }
  }
}
