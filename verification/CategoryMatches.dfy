/** The assignment said in dates, texts and kinds of matcher: which rules can file a row,
    which of them does, and what a proposal changes. */
module CategoryMatches {
  import opened Outcomes
  import opened Categories

  // ---- One rule ----------------------------------------------------------------------------

  /** Both ends included; an end that is not given is open. */
  predicate IsOn(interval: Interval, on: int) {
    && (interval.start.None? || interval.start.value <= on)
    && (interval.end.None? || on <= interval.end.value)
  }

  /** How the wanted text stands in the candidate. */
  ghost predicate Reads(mode: Mode, wanted: string, candidate: string) {
    match mode
    case Equals => candidate == wanted
    case StartsWith => exists rest :: candidate == wanted + rest
    case Contains => exists before, rest :: candidate == before + wanted + rest
  }

  ghost predicate ReadsField(lower: string -> string, mode: Mode, text: string, field: Option<string>) {
    field.Some? && Reads(mode, lower(text), lower(field.value))
  }

  ghost predicate ReadsRow(lower: string -> string, mode: Mode, text: string, subject: Subject) {
    text != ""
    && (ReadsField(lower, mode, text, subject.counterparty) || ReadsField(lower, mode, text, subject.description))
  }

  ghost predicate Finds(lower: string -> string, m: Matcher, subject: Subject) {
    match m
    case Row(key) => key != "" && subject.rowKey == Some(key)
    case SourceCategory(value) => value != "" && subject.sourceCategory == Some(value)
    case DescriptionContains(text) => ReadsRow(lower, Contains, text, subject)
    case Description(text, mode) => ReadsRow(lower, mode, text, subject)
  }

  /** A rule of this interval and matcher can file the row. */
  ghost predicate CanFile(lower: string -> string, interval: Interval, m: Matcher, subject: Subject) {
    IsOn(interval, subject.on) && Finds(lower, m, subject)
  }

  lemma {:induction false} WithinReads(wanted: string, candidate: string)
    ensures Within(wanted, candidate) <==> Reads(Contains, wanted, candidate)
  {
    if i :| 0 <= i <= |candidate| && wanted <= candidate[i..] {
      assert candidate == candidate[..i] + wanted + candidate[i + |wanted|..];
    }
    if before, rest :| candidate == before + wanted + rest {
      assert candidate[|before|..] == wanted + rest;
    }
  }

  lemma {:induction false} TextReads(mode: Mode, wanted: string, candidate: string)
    ensures TextFits(mode, wanted, candidate) <==> Reads(mode, wanted, candidate)
  {
    match mode
    case Equals =>
    case StartsWith =>
      if wanted <= candidate {
        assert candidate == wanted + candidate[|wanted|..];
      }
    case Contains =>
      WithinReads(wanted, candidate);
  }

  lemma {:induction false} FieldReads(lower: string -> string, mode: Mode, text: string, field: Option<string>)
    ensures FieldFits(lower, text, mode, field) <==> ReadsField(lower, mode, text, field)
  {
    if field.Some? {
      TextReads(mode, lower(text), lower(field.value));
    }
  }

  lemma {:induction false} RowReads(lower: string -> string, mode: Mode, text: string, subject: Subject)
    ensures DescriptionMatches(lower, text, mode, subject) <==> ReadsRow(lower, mode, text, subject)
  {
    FieldReads(lower, mode, text, subject.counterparty);
    FieldReads(lower, mode, text, subject.description);
  }

  lemma {:induction false} AppliesIfCanFile(lower: string -> string, rule: Rule, subject: Subject)
    ensures Applies(lower, rule, subject) <==> CanFile(lower, rule.interval, rule.matcher, subject)
  {
    match rule.matcher
    case Row(_) =>
    case SourceCategory(_) =>
    case DescriptionContains(text) => RowReads(lower, Contains, text, subject);
    case Description(text, mode) => RowReads(lower, mode, text, subject);
  }

  /** A rule on its own files a row exactly when its interval holds the row's date, both
      ends included, and the row's own text is what its matcher asks for. */
  lemma {:induction false} OneRuleFilesIff(lower: string -> string, subject: Subject, rule: Rule)
    ensures Assign(lower, subject, [rule]).Assigned? <==> CanFile(lower, rule.interval, rule.matcher, subject)
  {
    AppliesIfCanFile(lower, rule, subject);
    var winner := AssignIsTheMaximum(lower, subject, [rule]);
    assert [rule][0] == rule;
  }

  // ---- Many rules ---------------------------------------------------------------------------

  predicate IsDescription(m: Matcher) {
    m.DescriptionContains? || m.Description?
  }

  predicate SameKind(a: Matcher, b: Matcher) {
    (a.Row? && b.Row?) || (a.SourceCategory? && b.SourceCategory?) || (IsDescription(a) && IsDescription(b))
  }

  /** A rule yields to another: a description to a source category and both to a row; of
      one kind the shorter text to the longer, then the older version, then the smaller id. */
  predicate YieldsTo(weak: Rule, strong: Rule) {
    var length, other := |TextOf(weak.matcher)|, |TextOf(strong.matcher)|;
    && (weak.matcher.Row? ==> strong.matcher.Row?)
    && (weak.matcher.SourceCategory? ==> !IsDescription(strong.matcher))
    && (SameKind(weak.matcher, strong.matcher) ==> length <= other)
    && (SameKind(weak.matcher, strong.matcher) && length == other ==> weak.version <= strong.version)
    && (SameKind(weak.matcher, strong.matcher) && length == other && weak.version == strong.version ==> weak.id <= strong.id)
  }

  predicate IsAnswerOf(answer: Assignment, rule: Rule) {
    && answer.Assigned? && answer.category == rule.category && answer.rule == rule.id
    && (answer.basis.ByRow? <==> rule.matcher.Row?)
    && (answer.basis.BySource? <==> rule.matcher.SourceCategory?)
  }

  lemma {:induction false} OutrankedYields(weak: Rule, strong: Rule)
    requires !Outranks(weak, strong)
    ensures YieldsTo(weak, strong)
  {
  }

  /** Of many rules the row is filed by one that files it on its own and that every other
      such rule yields to; it is left alone exactly when no rule files it on its own. */
  lemma {:induction false} TheStrongestFiles(lower: string -> string, subject: Subject, rules: seq<Rule>) returns (k: nat)
    ensures Assign(lower, subject, rules).NotDecomposed?
       <==> forall i | 0 <= i < |rules| :: !CanFile(lower, rules[i].interval, rules[i].matcher, subject)
    ensures Assign(lower, subject, rules).Assigned? ==>
      && k < |rules| && CanFile(lower, rules[k].interval, rules[k].matcher, subject)
      && IsAnswerOf(Assign(lower, subject, rules), rules[k])
      && forall i | 0 <= i < |rules| && CanFile(lower, rules[i].interval, rules[i].matcher, subject) ::
           YieldsTo(rules[i], rules[k])
  {
    var winner := AssignIsTheMaximum(lower, subject, rules);
    forall i | 0 <= i < |rules|
      ensures Applies(lower, rules[i], subject) <==> CanFile(lower, rules[i].interval, rules[i].matcher, subject)
    {
      AppliesIfCanFile(lower, rules[i], subject);
    }
    k := 0;
    if winner.Some? {
      k :| 0 <= k < |rules| && rules[k] == winner.value;
      forall i | 0 <= i < |rules| && Applies(lower, rules[i], subject)
        ensures YieldsTo(rules[i], rules[k])
      {
        OutrankedYields(rules[i], rules[k]);
      }
    }
  }

  // ---- The preview ---------------------------------------------------------------------------

  /** A rule of a stronger kind than the matcher can file the row. */
  ghost predicate StrongerKindFiles(lower: string -> string, rules: seq<Rule>, m: Matcher, subject: Subject) {
    exists i | 0 <= i < |rules| && CanFile(lower, rules[i].interval, rules[i].matcher, subject) ::
      (rules[i].matcher.Row? && !m.Row?) || (rules[i].matcher.SourceCategory? && IsDescription(m))
  }

  /** The preview gives the proposal's own answer exactly when the proposal can file the
      row and no rule of a stronger kind can; otherwise nothing changes. */
  lemma {:induction false} PreviewIs(lower: string -> string, subject: Subject, rules: seq<Rule>, proposed: Proposal)
    ensures var preview := AssignWithProposed(lower, subject, rules, proposed);
      if CanFile(lower, proposed.interval, proposed.matcher, subject)
         && !StrongerKindFiles(lower, rules, proposed.matcher, subject)
      then IsAnswerOf(preview, Stored(proposed, 0))
      else preview == Assign(lower, subject, rules)
  {
    AppliesIfCanFile(lower, Stored(proposed, 0), subject);
    var k := TheStrongestFiles(lower, subject, rules);
  }
}
