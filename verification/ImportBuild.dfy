/** From rows to operations (`operation_of`, `transfer_to_own_account` and `build`). */
module ImportBuild {
  import opened Outcomes
  import opened StableSorting
  import opened ExportRows
  import opened TransferPairing
  import opened Texts

  /** What a run is given besides the rows. `digest` is the hexadecimal SHA-256
      of a raw line, taken as a parameter. */
  datatype Settings = Settings(
    accounts: map<string, string>,
    channel: string,
    counterparties: map<string, string>,
    digest: string -> string)

  /** A lookup whose result is used as a truth value: an absent entry and an
      empty one are both «no». */
  function Lookup(table: map<string, string>, name: string): string {
    if name in table then table[name] else ""
  }

  /** The account a row belongs to, or the empty text outside the contour. */
  function IdOf(s: Settings, row: Row): string {
    Lookup(s.accounts, row.account)
  }

  predicate Inside(s: Settings, row: Row) {
    IdOf(s, row) != ""
  }

  /** The account of the operator's own that the row's counterparty was declared to be. */
  function DeclaredOther(s: Settings, row: Row): string {
    Lookup(s.counterparties, row.legend)
  }

  // ---- Operations ----------------------------------------------------------

  datatype Flow =
    | Withdrawal
    | Deposit
    | Refund
    | Income(kind: Option<string>)
    | Transfer(to: string)

  datatype Operation = Operation(
    account: string,
    flow: Flow,
    amount: int,
    posted: int,
    sourceCategory: string,
    ownerCategory: Option<string>,
    description: string,
    key: string)

  const EARNED_BY_CAPITAL: map<string, Option<string>> :=
    map["Проценты" := Some("deposit_interest"), "Бонусы" := None]

  const ARRIVES_FROM_OUTSIDE := {"Переводы", "Пополнения"}

  function FlowOf(row: Row): Flow {
    if row.amount > 0 then
      if row.category in EARNED_BY_CAPITAL then Income(EARNED_BY_CAPITAL[row.category])
      else if row.category in ARRIVES_FROM_OUTSIDE then Deposit
      else Refund
    else Withdrawal
  }

  function Recorded(row: Row, account: string, flow: Flow, key: string): Operation {
    Operation(account, flow, Abs(row.amount), DayOf(row), row.category,
              if row.ownerCategory == "" then None else Some(row.ownerCategory), row.description, key)
  }

  function OperationOf(row: Row, account: string, key: string): Operation {
    Recorded(row, account, FlowOf(row), key)
  }

  function TransferToOwnAccount(row: Row, statement: string, other: string, key: string): Operation {
    if row.amount < 0 then Recorded(row, statement, Transfer(other), key)
    else Recorded(row, other, Transfer(statement), key)
  }

  function RowKey(account: string, channel: string, digest: string, ordinal: nat): string {
    account + ['/'] + channel + ['/'] + digest + ['/'] + Decimal(ordinal)
  }

  // ---- Ordinals ------------------------------------------------------------

  /** The row of a pair that is submitted, if either is inside the contour. */
  function Survivor(rows: seq<Row>, s: Settings, pair: (nat, nat)): Option<nat>
    requires pair.0 < |rows| && pair.1 < |rows|
  {
    if Inside(s, rows[pair.0]) then Some(pair.0)
    else if Inside(s, rows[pair.1]) then Some(pair.1)
    else None
  }

  ghost predicate InFile(rows: seq<Row>, p: Pairing) {
    && (forall k | 0 <= k < |p.pairs| :: p.pairs[k].0 < |rows| && p.pairs[k].1 < |rows|)
    && forall k | 0 <= k < |p.singles| :: p.singles[k] < |rows|
  }

  /** Rows that will be submitted: the survivors of the pairs, and the ordinary
      singles inside the contour. */
  ghost function PairSurvivors(rows: seq<Row>, s: Settings, pairs: seq<(nat, nat)>): set<nat>
    requires InFile(rows, Pairing(pairs, []))
  {
    if pairs == [] then {}
    else
      var before, survivor := PairSurvivors(rows, s, pairs[..|pairs| - 1]), Survivor(rows, s, pairs[|pairs| - 1]);
      if survivor.Some? then before + {survivor.value} else before
  }

  predicate IsSubmittedSingle(s: Settings, row: Row) {
    Inside(s, row) && !IsInternalTransfer(row)
  }

  ghost function SubmittedSingles(rows: seq<Row>, s: Settings, singles: seq<nat>): set<nat>
    requires InFile(rows, Pairing([], singles))
  {
    if singles == [] then {}
    else
      var before, last := SubmittedSingles(rows, s, singles[..|singles| - 1]), singles[|singles| - 1];
      if IsSubmittedSingle(s, rows[last]) then before + {last} else before
  }

  ghost function SubmittedRows(rows: seq<Row>, s: Settings, p: Pairing): set<nat>
    requires InFile(rows, p)
  {
    PairSurvivors(rows, s, p.pairs) + SubmittedSingles(rows, s, p.singles)
  }

  ghost predicate AllBelow(order: seq<nat>, n: nat) {
    forall k | 0 <= k < |order| :: order[k] < n
  }

  function InFileOrder(chosen: set<nat>, n: nat): (ps: seq<nat>)
    ensures AllBelow(ps, n)
  {
    if n == 0 then []
    else
      var before := InFileOrder(chosen, n - 1);
      if n - 1 in chosen then before + [n - 1] else before
  }

  /** An unmatched internal leg that is numbered though it is never submitted. */
  predicate IsUnmatched(s: Settings, row: Row) {
    row.account in s.accounts && IsInternalTransfer(row)
  }

  function UnmatchedAmong(rows: seq<Row>, s: Settings, singles: seq<nat>): (ps: seq<nat>)
    requires InFile(rows, Pairing([], singles))
    ensures AllBelow(ps, |rows|)
  {
    if singles == [] then []
    else
      var last := singles[|singles| - 1];
      var before := UnmatchedAmong(rows, s, singles[..|singles| - 1]);
      if IsUnmatched(s, rows[last]) then before + [last] else before
  }

  /** The order in which rows receive their ordinals: what is submitted in file
      order, then the unmatched legs as the pairing lists them. */
  ghost function NumberedRows(rows: seq<Row>, s: Settings, p: Pairing): (order: seq<nat>)
    requires InFile(rows, p)
    ensures AllBelow(order, |rows|)
  {
    InFileOrder(SubmittedRows(rows, s, p), |rows|) + UnmatchedAmong(rows, s, p.singles)
  }

  datatype Group = Group(account: string, day: int, digest: string)

  function GroupOf(s: Settings, row: Row): Group {
    Group(IdOf(s, row), DayOf(row), s.digest(row.raw))
  }

  /** How many of the listed rows belong to a group. */
  ghost function CountOf(rows: seq<Row>, s: Settings, order: seq<nat>, g: Group): nat
    requires AllBelow(order, |rows|)
  {
    if order == [] then 0
    else
      CountOf(rows, s, order[..|order| - 1], g)
      + if GroupOf(s, rows[order[|order| - 1]]) == g then 1 else 0
  }

  function Reading(counters: map<Group, nat>, g: Group): nat {
    if g in counters then counters[g] else 0
  }

  /** The counters once the listed rows have been numbered. */
  ghost function Tally(rows: seq<Row>, s: Settings, order: seq<nat>): map<Group, nat>
    requires AllBelow(order, |rows|)
  {
    if order == [] then map[]
    else
      var before, g := Tally(rows, s, order[..|order| - 1]), GroupOf(s, rows[order[|order| - 1]]);
      before[g := Reading(before, g) + 1]
  }

  /** The ordinal each listed row received. */
  ghost function Numbering(rows: seq<Row>, s: Settings, order: seq<nat>): map<nat, nat>
    requires AllBelow(order, |rows|)
  {
    if order == [] then map[]
    else
      var last := order[|order| - 1];
      Numbering(rows, s, order[..|order| - 1])[last := Reading(Tally(rows, s, order), GroupOf(s, rows[last]))]
  }

  ghost function OrdinalsOf(rows: seq<Row>, s: Settings, p: Pairing): map<nat, nat>
    requires InFile(rows, p)
  {
    Numbering(rows, s, NumberedRows(rows, s, p))
  }

  lemma {:induction false} NumberingSnoc(rows: seq<Row>, s: Settings, order: seq<nat>, i: nat)
    requires AllBelow(order, |rows|) && i < |rows|
    ensures AllBelow(order + [i], |rows|)
    ensures var before, g := Tally(rows, s, order), GroupOf(s, rows[i]);
            && Tally(rows, s, order + [i]) == before[g := Reading(before, g) + 1]
            && Numbering(rows, s, order + [i]) == Numbering(rows, s, order)[i := Reading(before, g) + 1]
  {
    assert (order + [i])[..|order|] == order;
  }

  lemma {:induction false} NumberedAreListed(rows: seq<Row>, s: Settings, order: seq<nat>, i: nat)
    requires AllBelow(order, |rows|)
    ensures i in Numbering(rows, s, order) <==> i in order
  {
    if order != [] {
      NumberedAreListed(rows, s, order[..|order| - 1], i);
      assert order == order[..|order| - 1] + [order[|order| - 1]];
    }
  }

  // ---- The book: what every pair and every single adds ---------------------

  datatype DroppedLeg = DroppedLeg(
    line: nat, account: string, moment: int, amount: int, description: string, foldedInto: string)

  datatype UnmatchedLeg = UnmatchedLeg(
    line: nat, account: string, moment: int, amount: int, description: string, key: string)

  /** Operations keyed by file position, and the running counters of the summary. */
  datatype Book = Book(
    items: seq<Keyed<Operation>>,
    droppedSecondLeg: nat,
    droppedLegs: seq<DroppedLeg>,
    skippedOutsideContour: nat,
    unmatchedLegs: nat,
    unmatched: seq<UnmatchedLeg>,
    ownTransfers: nat)

  const EMPTY_BOOK := Book([], 0, [], 0, 0, [], 0)

  function KeyFor(rows: seq<Row>, s: Settings, ordinals: map<nat, nat>, i: nat): string
    requires i < |rows|
  {
    RowKey(IdOf(s, rows[i]), s.channel, s.digest(rows[i].raw), if i in ordinals then ordinals[i] else 0)
  }

  function Dropped(rows: seq<Row>, i: nat, foldedInto: string): DroppedLeg
    requires i < |rows|
  {
    DroppedLeg(i + 2, rows[i].account, rows[i].moment, rows[i].amount, rows[i].description, foldedInto)
  }

  function Unmatched(rows: seq<Row>, i: nat, key: string): UnmatchedLeg
    requires i < |rows|
  {
    UnmatchedLeg(i + 2, rows[i].account, rows[i].moment, rows[i].amount, rows[i].description, key)
  }

  /** What one pair becomes: a transfer, one side of it, or nothing. */
  function BookPair(rows: seq<Row>, s: Settings, ordinals: map<nat, nat>, book: Book, pair: (nat, nat)): Book
    requires pair.0 < |rows| && pair.1 < |rows|
  {
    var (out, inn) := pair;
    var outId, inId := IdOf(s, rows[out]), IdOf(s, rows[inn]);
    if outId != "" && inId != "" then
      var key := KeyFor(rows, s, ordinals, out);
      book.(items := book.items + [Keyed(Single(out), Recorded(rows[out], outId, Transfer(inId), key))],
            droppedSecondLeg := book.droppedSecondLeg + 1,
            droppedLegs := book.droppedLegs + [Dropped(rows, inn, key)])
    else if outId != "" || inId != "" then
      var inside := if outId != "" then out else inn;
      var account := if outId != "" then outId else inId;
      book.(items := book.items + [Keyed(Single(inside), OperationOf(rows[inside], account, KeyFor(rows, s, ordinals, inside)))],
            skippedOutsideContour := book.skippedOutsideContour + 1)
    else
      book.(skippedOutsideContour := book.skippedOutsideContour + 2)
  }

  function BookPairs(rows: seq<Row>, s: Settings, ordinals: map<nat, nat>, pairs: seq<(nat, nat)>): Book
    requires InFile(rows, Pairing(pairs, []))
  {
    if pairs == [] then EMPTY_BOOK
    else BookPair(rows, s, ordinals, BookPairs(rows, s, ordinals, pairs[..|pairs| - 1]), pairs[|pairs| - 1])
  }

  /** What one single becomes: skipped, reported as unmatched, a transfer to a
      declared account, or an ordinary operation. */
  function BookSingle(rows: seq<Row>, s: Settings, ordinals: map<nat, nat>, book: Book, i: nat): Book
    requires i < |rows|
  {
    var account := IdOf(s, rows[i]);
    var key := KeyFor(rows, s, ordinals, i);
    var other := DeclaredOther(s, rows[i]);
    if account == "" then
      book.(skippedOutsideContour := book.skippedOutsideContour + 1)
    else if IsInternalTransfer(rows[i]) then
      book.(unmatchedLegs := book.unmatchedLegs + 1,
            unmatched := book.unmatched + [Unmatched(rows, i, key)])
    else if other != "" then
      book.(items := book.items + [Keyed(Single(i), TransferToOwnAccount(rows[i], account, other, key))],
            ownTransfers := book.ownTransfers + 1)
    else
      book.(items := book.items + [Keyed(Single(i), OperationOf(rows[i], account, key))])
  }

  function BookSingles(rows: seq<Row>, s: Settings, ordinals: map<nat, nat>, book: Book, singles: seq<nat>): Book
    requires InFile(rows, Pairing([], singles))
  {
    if singles == [] then book
    else BookSingle(rows, s, ordinals, BookSingles(rows, s, ordinals, book, singles[..|singles| - 1]), singles[|singles| - 1])
  }

  function BookOf(rows: seq<Row>, s: Settings, ordinals: map<nat, nat>, p: Pairing): Book
    requires InFile(rows, p)
  {
    BookSingles(rows, s, ordinals, BookPairs(rows, s, ordinals, p.pairs), p.singles)
  }

  datatype Summary = Summary(
    submitted: nat,
    droppedSecondLeg: nat,
    droppedLegs: seq<DroppedLeg>,
    skippedOutsideContour: nat,
    unmatchedLegs: nat,
    unmatched: seq<UnmatchedLeg>,
    ownTransfers: nat)

  function SummaryOf(book: Book): Summary {
    Summary(|book.items|, book.droppedSecondLeg, book.droppedLegs, book.skippedOutsideContour,
            book.unmatchedLegs, book.unmatched, book.ownTransfers)
  }

  /** The rows of the file no counter accounts for, as `main` reports it. */
  function Unaccounted(rows: seq<Row>, summary: Summary): int {
    |rows| - (summary.submitted + summary.droppedSecondLeg + summary.skippedOutsideContour + summary.unmatchedLegs)
  }
}
