/** Which category a row is filed under: the rules in force, their priority, and
    the preview of a rule that has not been stored yet. */
module Categories {
  import opened Outcomes

  datatype Interval = Interval(start: Option<int>, end: Option<int>)

  predicate Covers(interval: Interval, on: int) {
    && (interval.start.Some? ==> interval.start.value <= on)
    && (interval.end.Some? ==> on <= interval.end.value)
  }

  datatype Subject = Subject(
    rowKey: Option<string>,
    sourceCategory: Option<string>,
    counterparty: Option<string>,
    description: Option<string>,
    on: int)

  datatype Mode = Equals | StartsWith | Contains

  datatype Matcher =
    | Row(key: string)
    | SourceCategory(value: string)
    | DescriptionContains(text: string)
    | Description(text: string, mode: Mode)

  datatype Rule = Rule(id: int, version: nat, interval: Interval, matcher: Matcher, category: int)

  datatype Proposal = Proposal(id: int, interval: Interval, matcher: Matcher, category: int)

  /** The three passes of the assignment, weakest first. */
  datatype Tier = ByDescription | BySource | ByRow

  datatype Assignment = Assigned(category: int, basis: Tier, rule: int) | NotDecomposed

  function TierOf(m: Matcher): Tier {
    match m
    case Row(_) => ByRow
    case SourceCategory(_) => BySource
    case DescriptionContains(_) => ByDescription
    case Description(_, _) => ByDescription
  }

  function TextOf(m: Matcher): (text: string)
    ensures m == Row(text) || m == SourceCategory(text) || m == DescriptionContains(text)
            || (m.Description? && m == Description(text, m.mode))
  {
    match m
    case Row(key) => key
    case SourceCategory(value) => value
    case DescriptionContains(text) => text
    case Description(text, _) => text
  }

  // ---- Matching ------------------------------------------------------------------

  predicate Within(wanted: string, candidate: string) {
    exists i | 0 <= i <= |candidate| :: wanted <= candidate[i..]
  }

  predicate TextFits(mode: Mode, wanted: string, candidate: string) {
    match mode
    case Equals => candidate == wanted
    case StartsWith => wanted <= candidate
    case Contains => Within(wanted, candidate)
  }

  predicate FieldFits(lower: string -> string, text: string, mode: Mode, field: Option<string>) {
    field.Some? && TextFits(mode, lower(text), lower(field.value))
  }

  predicate DescriptionMatches(lower: string -> string, text: string, mode: Mode, subject: Subject) {
    && text != ""
    && (FieldFits(lower, text, mode, subject.counterparty) || FieldFits(lower, text, mode, subject.description))
  }

  predicate Matches(lower: string -> string, m: Matcher, subject: Subject) {
    match m
    case Row(key) => key != "" && subject.rowKey == Some(key)
    case SourceCategory(value) => value != "" && subject.sourceCategory == Some(value)
    case DescriptionContains(text) => DescriptionMatches(lower, text, Contains, subject)
    case Description(text, mode) => DescriptionMatches(lower, text, mode, subject)
  }

  // ---- Assignment ------------------------------------------------------------------

  datatype Priority = Priority(textLength: nat, version: nat, id: int)

  function PriorityOf(rule: Rule): Priority {
    Priority(|TextOf(rule.matcher)|, rule.version, rule.id)
  }

  predicate Below(a: Priority, b: Priority) {
    a.textLength < b.textLength
    || (a.textLength == b.textLength && (a.version < b.version || (a.version == b.version && a.id < b.id)))
  }

  /** The rules of one tier that cover the date and match the row, in list order. */
  function Contenders(lower: string -> string, rules: seq<Rule>, subject: Subject, tier: Tier): seq<Rule> {
    if rules == [] then []
    else
      var before := Contenders(lower, rules[..|rules| - 1], subject, tier);
      var rule := rules[|rules| - 1];
      if Covers(rule.interval, subject.on) && TierOf(rule.matcher) == tier && Matches(lower, rule.matcher, subject)
      then before + [rule]
      else before
  }

  /** The last of the elements of greatest priority, as `max_by_key` returns it. */
  function Strongest(rules: seq<Rule>): Option<Rule> {
    if rules == [] then None
    else
      var rule := rules[|rules| - 1];
      match Strongest(rules[..|rules| - 1])
      case None => Some(rule)
      case Some(best) => if Below(PriorityOf(rule), PriorityOf(best)) then Some(best) else Some(rule)
  }

  function AssignmentFor(rule: Rule): Assignment {
    Assigned(rule.category, TierOf(rule.matcher), rule.id)
  }

  function Assign(lower: string -> string, subject: Subject, rules: seq<Rule>): Assignment {
    match Strongest(Contenders(lower, rules, subject, ByRow))
    case Some(rule) => AssignmentFor(rule)
    case None =>
      match Strongest(Contenders(lower, rules, subject, BySource))
      case Some(rule) => AssignmentFor(rule)
      case None =>
        match Strongest(Contenders(lower, rules, subject, ByDescription))
        case Some(rule) => AssignmentFor(rule)
        case None => NotDecomposed
  }

  /** The answer a rule that is not stored yet would give. */
  function AssignWithProposed(lower: string -> string, subject: Subject, rules: seq<Rule>, proposed: Proposal): Assignment {
    var current := Assign(lower, subject, rules);
    if !Covers(proposed.interval, subject.on) || !Matches(lower, proposed.matcher, subject) then current
    else
      var proposal := Assigned(proposed.category, TierOf(proposed.matcher), proposed.id);
      match proposed.matcher
      case Row(_) => proposal
      case SourceCategory(_) =>
        if current.Assigned? && current.basis.ByRow? then current else proposal
      case _ =>
        if current.Assigned? && !current.basis.ByDescription? then current else proposal
  }

  // ---- The assignment as one maximum ------------------------------------------------

  predicate Applies(lower: string -> string, rule: Rule, subject: Subject) {
    Covers(rule.interval, subject.on) && Matches(lower, rule.matcher, subject)
  }

  function TierRank(tier: Tier): int {
    match tier case ByDescription => 0 case BySource => 1 case ByRow => 2
  }

  /** One rule is stronger than another: by tier, then text length, version and id. */
  predicate Outranks(a: Rule, b: Rule) {
    var s, t := TierRank(TierOf(a.matcher)), TierRank(TierOf(b.matcher));
    s > t || (s == t && Below(PriorityOf(b), PriorityOf(a)))
  }

  ghost predicate Wins(lower: string -> string, winner: Rule, rules: seq<Rule>, subject: Subject) {
    && winner in rules
    && Applies(lower, winner, subject)
    && forall i | 0 <= i < |rules| && Applies(lower, rules[i], subject) :: !Outranks(rules[i], winner)
  }

  ghost predicate NoneApplies(lower: string -> string, rules: seq<Rule>, subject: Subject) {
    forall i | 0 <= i < |rules| :: !Applies(lower, rules[i], subject)
  }

  ghost predicate DistinctIds(rules: seq<Rule>) {
    forall i, j | 0 <= i < |rules| && 0 <= j < |rules| && rules[i].id == rules[j].id :: rules[i] == rules[j]
  }

  lemma {:induction false} ContendersApply(lower: string -> string, rules: seq<Rule>, subject: Subject, tier: Tier, rule: Rule)
    ensures rule in Contenders(lower, rules, subject, tier)
       <==> rule in rules && Applies(lower, rule, subject) && TierOf(rule.matcher) == tier
  {
    if rules != [] {
      ContendersApply(lower, rules[..|rules| - 1], subject, tier, rule);
      assert rules == rules[..|rules| - 1] + [rules[|rules| - 1]];
    }
  }

  lemma {:induction false} StrongestIsMaximal(rules: seq<Rule>)
    ensures Strongest(rules).None? <==> rules == []
    ensures Strongest(rules).Some? ==> Strongest(rules).value in rules
    ensures Strongest(rules).Some? ==>
              forall r | r in rules :: !Below(PriorityOf(Strongest(rules).value), PriorityOf(r))
  {
    if rules != [] {
      var init := rules[..|rules| - 1];
      StrongestIsMaximal(init);
      assert rules == init + [rules[|rules| - 1]];
    }
  }

  lemma {:induction false} TierIsEmpty(lower: string -> string, rules: seq<Rule>, subject: Subject, tier: Tier)
    requires Strongest(Contenders(lower, rules, subject, tier)).None?
    ensures forall i | 0 <= i < |rules| && Applies(lower, rules[i], subject) :: TierOf(rules[i].matcher) != tier
  {
    StrongestIsMaximal(Contenders(lower, rules, subject, tier));
    forall i | 0 <= i < |rules| && Applies(lower, rules[i], subject)
      ensures TierOf(rules[i].matcher) != tier
    {
      ContendersApply(lower, rules, subject, tier, rules[i]);
    }
  }

  lemma {:induction false} TierLeaderWins(lower: string -> string, rules: seq<Rule>, subject: Subject, tier: Tier, rule: Rule)
    requires Strongest(Contenders(lower, rules, subject, tier)) == Some(rule)
    requires forall i | 0 <= i < |rules| && Applies(lower, rules[i], subject) ::
               TierRank(TierOf(rules[i].matcher)) <= TierRank(tier)
    ensures Wins(lower, rule, rules, subject) && TierOf(rule.matcher) == tier
  {
    var contenders := Contenders(lower, rules, subject, tier);
    StrongestIsMaximal(contenders);
    ContendersApply(lower, rules, subject, tier, rule);
    forall i | 0 <= i < |rules| && Applies(lower, rules[i], subject)
      ensures !Outranks(rules[i], rule)
    {
      ContendersApply(lower, rules, subject, tier, rules[i]);
    }
  }

  /** The three filtered passes are one maximum: whatever is assigned is assigned
      by a rule in force that no other rule in force outranks, and a row is left
      undecomposed exactly when no rule covers and matches it. */
  lemma {:induction false} AssignIsTheMaximum(lower: string -> string, subject: Subject, rules: seq<Rule>)
    returns (winner: Option<Rule>)
    ensures winner.None? <==> NoneApplies(lower, rules, subject)
    ensures winner.None? ==> Assign(lower, subject, rules) == NotDecomposed
    ensures winner.Some? ==> Wins(lower, winner.value, rules, subject)
    ensures winner.Some? ==> Assign(lower, subject, rules) == AssignmentFor(winner.value)
  {
    match Strongest(Contenders(lower, rules, subject, ByRow)) {
      case Some(rule) =>
        TierLeaderWins(lower, rules, subject, ByRow, rule);
        winner := Some(rule);
      case None =>
        TierIsEmpty(lower, rules, subject, ByRow);
        match Strongest(Contenders(lower, rules, subject, BySource)) {
          case Some(rule) =>
            TierLeaderWins(lower, rules, subject, BySource, rule);
            winner := Some(rule);
          case None =>
            TierIsEmpty(lower, rules, subject, BySource);
            match Strongest(Contenders(lower, rules, subject, ByDescription)) {
              case Some(rule) =>
                TierLeaderWins(lower, rules, subject, ByDescription, rule);
                winner := Some(rule);
              case None =>
                TierIsEmpty(lower, rules, subject, ByDescription);
                winner := None;
            }
        }
    }
  }

  lemma {:induction false} WinnerIsUnique(lower: string -> string, a: Rule, b: Rule, rules: seq<Rule>, subject: Subject)
    requires DistinctIds(rules)
    requires Wins(lower, a, rules, subject) && Wins(lower, b, rules, subject)
    ensures a == b
  {
    var i :| 0 <= i < |rules| && rules[i] == a;
    var j :| 0 <= j < |rules| && rules[j] == b;
    assert !Outranks(rules[i], b) && !Outranks(rules[j], a);
  }

  lemma {:induction false} AssignIsTheWinner(lower: string -> string, winner: Rule, rules: seq<Rule>, subject: Subject)
    requires DistinctIds(rules) && Wins(lower, winner, rules, subject)
    ensures Assign(lower, subject, rules) == AssignmentFor(winner)
  {
    var i :| 0 <= i < |rules| && rules[i] == winner;
    var found := AssignIsTheMaximum(lower, subject, rules);
    assert Applies(lower, rules[i], subject);
    WinnerIsUnique(lower, found.value, winner, rules, subject);
  }

  lemma {:induction false} SameRules(rules: seq<Rule>, other: seq<Rule>, rule: Rule)
    requires multiset(rules) == multiset(other)
    ensures rule in rules <==> rule in other
  {
    assert rule in rules <==> rule in multiset(rules);
    assert rule in other <==> rule in multiset(other);
  }

  lemma {:induction false} WinnerOfAnyOrder(lower: string -> string, winner: Rule, rules: seq<Rule>, other: seq<Rule>, subject: Subject)
    requires multiset(rules) == multiset(other) && Wins(lower, winner, rules, subject)
    ensures Wins(lower, winner, other, subject)
  {
    SameRules(rules, other, winner);
    forall i | 0 <= i < |other| && Applies(lower, other[i], subject)
      ensures !Outranks(other[i], winner)
    {
      SameRules(rules, other, other[i]);
    }
  }

  lemma {:induction false} NoneAppliesInAnyOrder(lower: string -> string, rules: seq<Rule>, other: seq<Rule>, subject: Subject)
    requires multiset(rules) == multiset(other) && NoneApplies(lower, rules, subject)
    ensures NoneApplies(lower, other, subject)
  {
    forall i | 0 <= i < |other|
      ensures !Applies(lower, other[i], subject)
    {
      SameRules(rules, other, other[i]);
    }
  }

  lemma {:induction false} DistinctInAnyOrder(rules: seq<Rule>, other: seq<Rule>)
    requires multiset(rules) == multiset(other) && DistinctIds(rules)
    ensures DistinctIds(other)
  {
    forall i, j | 0 <= i < |other| && 0 <= j < |other| && other[i].id == other[j].id
      ensures other[i] == other[j]
    {
      SameRules(rules, other, other[i]);
      SameRules(rules, other, other[j]);
    }
  }

  /** The order rules are read in decides nothing. */
  lemma {:induction false} AssignIgnoresOrder(lower: string -> string, subject: Subject, rules: seq<Rule>, other: seq<Rule>)
    requires multiset(rules) == multiset(other) && DistinctIds(rules)
    ensures Assign(lower, subject, rules) == Assign(lower, subject, other)
  {
    var winner := AssignIsTheMaximum(lower, subject, rules);
    DistinctInAnyOrder(rules, other);
    if winner.Some? {
      WinnerOfAnyOrder(lower, winner.value, rules, other, subject);
      AssignIsTheWinner(lower, winner.value, other, subject);
    } else {
      NoneAppliesInAnyOrder(lower, rules, other, subject);
      var found := AssignIsTheMaximum(lower, subject, other);
    }
  }

  // ---- The preview against the stored rule --------------------------------------------

  function Stored(proposed: Proposal, version: nat): Rule {
    Rule(proposed.id, version, proposed.interval, proposed.matcher, proposed.category)
  }

  /** The proposal enters the list as its newest rule, under an id of its own. */
  ghost predicate IsNewest(proposed: Proposal, version: nat, rules: seq<Rule>) {
    forall i | 0 <= i < |rules| :: rules[i].id != proposed.id && rules[i].version < version
  }

  /** A rule of a higher tier than the description rules applies. */
  ghost predicate HigherTierApplies(lower: string -> string, rules: seq<Rule>, subject: Subject) {
    exists i | 0 <= i < |rules| :: Applies(lower, rules[i], subject) && TierOf(rules[i].matcher) != ByDescription
  }

  /** A description rule in force is longer than the text proposed. */
  ghost predicate LongerRuleApplies(lower: string -> string, rules: seq<Rule>, subject: Subject, text: string) {
    exists i | 0 <= i < |rules| ::
      Applies(lower, rules[i], subject) && TierOf(rules[i].matcher) == ByDescription && |TextOf(rules[i].matcher)| > |text|
  }

  /** When the preview of a proposal is what storing it would give. */
  ghost predicate PreviewHolds(lower: string -> string, rules: seq<Rule>, subject: Subject, proposed: Proposal) {
    || !Covers(proposed.interval, subject.on)
    || !Matches(lower, proposed.matcher, subject)
    || TierOf(proposed.matcher) != ByDescription
    || HigherTierApplies(lower, rules, subject)
    || !LongerRuleApplies(lower, rules, subject, TextOf(proposed.matcher))
  }

  /** Rules of one of the exact tiers that match the same row have the same text. */
  lemma {:induction false} ExactTextsAgree(lower: string -> string, a: Rule, b: Rule, subject: Subject)
    requires Applies(lower, a, subject) && Applies(lower, b, subject)
    requires TierOf(a.matcher) == TierOf(b.matcher) != ByDescription
    ensures TextOf(a.matcher) == TextOf(b.matcher)
  {
  }

  lemma {:induction false} ExtendedDistinct(rules: seq<Rule>, proposed: Proposal, version: nat)
    requires DistinctIds(rules) && IsNewest(proposed, version, rules)
    ensures DistinctIds(rules + [Stored(proposed, version)])
  {
  }

  /** The winner of the list survives a rule appended to it unless that rule outranks it. */
  lemma {:induction false} WinnerAfterAppend(lower: string -> string, winner: Rule, rules: seq<Rule>, added: Rule, subject: Subject)
    requires Wins(lower, winner, rules, subject)
    ensures !(Applies(lower, added, subject) && Outranks(added, winner)) ==> Wins(lower, winner, rules + [added], subject)
    ensures Applies(lower, added, subject) && Outranks(added, winner) ==> Wins(lower, added, rules + [added], subject)
  {
    var extended := rules + [added];
    forall i | 0 <= i < |extended| && Applies(lower, extended[i], subject)
      ensures Applies(lower, added, subject) && Outranks(added, winner) ==> !Outranks(extended[i], added)
      ensures !(Applies(lower, added, subject) && Outranks(added, winner)) ==> !Outranks(extended[i], winner)
    {
      if i < |rules| {
        assert extended[i] == rules[i];
      }
    }
  }

  lemma {:induction false} FirstRuleWins(lower: string -> string, rules: seq<Rule>, added: Rule, subject: Subject)
    requires NoneApplies(lower, rules, subject)
    ensures Applies(lower, added, subject) ==> Wins(lower, added, rules + [added], subject)
    ensures !Applies(lower, added, subject) ==> NoneApplies(lower, rules + [added], subject)
  {
  }

  /** What storing the proposal gives, told by the rule that wins without it. */
  lemma {:induction false} StoringGives(lower: string -> string, subject: Subject, rules: seq<Rule>, proposed: Proposal, version: nat)
    returns (winner: Option<Rule>)
    requires DistinctIds(rules) && IsNewest(proposed, version, rules)
    ensures winner.None? <==> NoneApplies(lower, rules, subject)
    ensures winner.Some? ==> Wins(lower, winner.value, rules, subject)
    ensures Assign(lower, subject, rules) == if winner.Some? then AssignmentFor(winner.value) else NotDecomposed
    ensures var added := Stored(proposed, version);
      Assign(lower, subject, rules + [added]) ==
      if Applies(lower, added, subject) && (winner.Some? ==> Outranks(added, winner.value)) then AssignmentFor(added)
      else Assign(lower, subject, rules)
  {
    var added := Stored(proposed, version);
    winner := AssignIsTheMaximum(lower, subject, rules);
    ExtendedDistinct(rules, proposed, version);
    if winner.Some? {
      WinnerAfterAppend(lower, winner.value, rules, added, subject);
      if Applies(lower, added, subject) && Outranks(added, winner.value) {
        AssignIsTheWinner(lower, added, rules + [added], subject);
      } else {
        AssignIsTheWinner(lower, winner.value, rules + [added], subject);
      }
    } else {
      FirstRuleWins(lower, rules, added, subject);
      if Applies(lower, added, subject) {
        AssignIsTheWinner(lower, added, rules + [added], subject);
      } else {
        var none := AssignIsTheMaximum(lower, subject, rules + [added]);
      }
    }
  }

  /** The preview says «the proposal» where storing says «the winner», or the other
      way round, in one case only: the winner is a description rule with longer text. */
  lemma {:induction false} PreviewAgainstWinner(lower: string -> string, subject: Subject, rules: seq<Rule>, proposed: Proposal,
                                                version: nat, winner: Rule)
    requires DistinctIds(rules) && IsNewest(proposed, version, rules)
    requires Wins(lower, winner, rules, subject)
    ensures PreviewHolds(lower, rules, subject, proposed) <==>
            AssignWithProposed(lower, subject, rules, proposed) == Assign(lower, subject, rules + [Stored(proposed, version)])
  {
    var added := Stored(proposed, version);
    AssignIsTheWinner(lower, winner, rules, subject);
    ExtendedDistinct(rules, proposed, version);
    WinnerAfterAppend(lower, winner, rules, added, subject);
    AssignIsTheWinner(lower, if Applies(lower, added, subject) && Outranks(added, winner) then added else winner,
                      rules + [added], subject);
    var w :| 0 <= w < |rules| && rules[w] == winner;
    if Applies(lower, added, subject) {
      if TierOf(winner.matcher) == TierOf(added.matcher) != ByDescription {
        ExactTextsAgree(lower, added, winner, subject);
      }
      if TierOf(added.matcher) == ByDescription {
        if HigherTierApplies(lower, rules, subject) {
          var i :| 0 <= i < |rules| && Applies(lower, rules[i], subject) && TierOf(rules[i].matcher) != ByDescription;
          assert !Outranks(rules[i], winner);
        }
        if LongerRuleApplies(lower, rules, subject, TextOf(proposed.matcher)) {
          var i :| 0 <= i < |rules| && Applies(lower, rules[i], subject) && TierOf(rules[i].matcher) == ByDescription
                   && |TextOf(rules[i].matcher)| > |TextOf(proposed.matcher)|;
          assert !Outranks(rules[i], winner);
        }
      }
    }
  }

  /** The preview agrees with persistence exactly when it should say so: always for
      row and source-category rules, and for a description rule unless a longer
      description rule is in force with no higher tier above it. The stored list may
      come back in any order. */
  lemma {:induction false} PreviewAgreesIff(lower: string -> string, subject: Subject, rules: seq<Rule>, proposed: Proposal,
                                            version: nat, stored: seq<Rule>)
    requires DistinctIds(rules) && IsNewest(proposed, version, rules)
    requires multiset(stored) == multiset(rules + [Stored(proposed, version)])
    ensures AssignWithProposed(lower, subject, rules, proposed) == Assign(lower, subject, stored)
       <==> PreviewHolds(lower, rules, subject, proposed)
  {
    var added := Stored(proposed, version);
    ExtendedDistinct(rules, proposed, version);
    AssignIgnoresOrder(lower, subject, rules + [added], stored);
    var winner := StoringGives(lower, subject, rules, proposed, version);
    if winner.Some? {
      PreviewAgainstWinner(lower, subject, rules, proposed, version, winner.value);
    } else {
      assert !LongerRuleApplies(lower, rules, subject, TextOf(proposed.matcher));
    }
  }

  /** A shorter proposal over one longer rule: the preview moves the row, storing does not. */
  lemma {:induction false} ShadowedProposal(lower: string -> string, subject: Subject, longer: Rule, proposed: Proposal, version: nat)
    requires Applies(lower, longer, subject) && Applies(lower, Stored(proposed, version), subject)
    requires TierOf(longer.matcher) == TierOf(proposed.matcher) == ByDescription
    requires |TextOf(longer.matcher)| > |TextOf(proposed.matcher)|
    requires longer.id != proposed.id && longer.version < version
    ensures AssignWithProposed(lower, subject, [longer], proposed) == AssignmentFor(Stored(proposed, version))
    ensures Assign(lower, subject, [longer] + [Stored(proposed, version)]) == AssignmentFor(longer)
  {
    assert Wins(lower, longer, [longer], subject);
    AssignIsTheWinner(lower, longer, [longer], subject);
    WinnerAfterAppend(lower, longer, [longer], Stored(proposed, version), subject);
    ExtendedDistinct([longer], proposed, version);
    AssignIsTheWinner(lower, longer, [longer] + [Stored(proposed, version)], subject);
  }

  lemma {:induction false} ContainsPrefix(wanted: string, candidate: string)
    requires wanted <= candidate
    ensures Within(wanted, candidate)
  {
    assert candidate[0..] == candidate;
  }

  /** A row described "ab" under a rule for "ab": previewing a rule for "a" says the
      row moves, and storing that rule leaves it where it was. */
  lemma {:induction false} PreviewCanMislead(lower: string -> string, version: nat)
    requires lower("a") == "a" && lower("ab") == "ab" && version > 1
    ensures var subject := Subject(None, None, None, Some("ab"), 0);
      var rule := Rule(1, 1, Interval(None, None), DescriptionContains("ab"), 10);
      var proposed := Proposal(2, Interval(None, None), DescriptionContains("a"), 20);
      && AssignWithProposed(lower, subject, [rule], proposed) == Assigned(20, ByDescription, 2)
      && Assign(lower, subject, [rule] + [Stored(proposed, version)]) == Assigned(10, ByDescription, 1)
  {
    var subject := Subject(None, None, None, Some("ab"), 0);
    var rule := Rule(1, 1, Interval(None, None), DescriptionContains("ab"), 10);
    var proposed := Proposal(2, Interval(None, None), DescriptionContains("a"), 20);
    ContainsPrefix("ab", "ab");
    ContainsPrefix("a", "ab");
    ShadowedProposal(lower, subject, rule, proposed, version);
  }
}
