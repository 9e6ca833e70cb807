/** The two ways of applying rules agree, and a rule derived from a label recognises it. */
module RuleLaws {
  import opened Labels
  import opened LabelLaws
  import opened Rules
  import opened Text
  import opened Wrappers

  ghost predicate DistinctRuleIds(rules: seq<Rule>) {
    forall i, j :: 0 <= i < j < |rules| ==> rules[i].id != rules[j].id
  }

  /** Best match of a set of rules: nothing about the order in which they are listed. */
  ghost predicate IsBest(choice: Option<Rule>, words: Label, rules: seq<Rule>, fits: Test) {
    match choice
    case None => forall q :: q in rules ==> !fits(q, words)
    case Some(r) => r in rules && fits(r, words) && forall q :: q in rules && fits(q, words) ==> RankLe(q, r)
  }

  lemma {:induction false} SelectIsBest(words: Label, rules: seq<Rule>, fits: Test)
    ensures IsBest(Select(words, rules, fits), words, rules, fits)
  {
    if rules != [] {
      var (init, last) := (rules[..|rules| - 1], rules[|rules| - 1]);
      assert rules == init + [last];
      SelectIsBest(words, init, fits);
    }
  }

  /** The choice does not depend on the order in which the rules are read. */
  lemma SelectIgnoresOrder(words: Label, rules: seq<Rule>, others: seq<Rule>, fits: Test)
    requires DistinctRuleIds(rules)
    requires forall r :: r in rules <==> r in others
    ensures Select(words, rules, fits) == Select(words, others, fits)
  {
    SelectIsBest(words, rules, fits);
    SelectIsBest(words, others, fits);
  }

  /** The order in which the repository lists rules: priority, then creation, both descending. */
  ghost predicate RepositoryOrder(rules: seq<Rule>) {
    forall i, j :: 0 <= i < j < |rules| ==>
      || rules[i].priority > rules[j].priority
      || (rules[i].priority == rules[j].priority && rules[i].createdAt >= rules[j].createdAt)
  }

  ghost predicate Tie(a: Rule, b: Rule) {
    a.priority == b.priority && a.createdAt == b.createdAt
  }

  lemma {:induction false} FirstMatchIsAMatch(words: Label, rules: seq<Rule>, fits: Test)
    ensures FirstMatch(words, rules, fits).None? <==> forall q :: q in rules ==> !fits(q, words)
    ensures FirstMatch(words, rules, fits).Some? ==>
      FirstMatch(words, rules, fits).value in rules && fits(FirstMatch(words, rules, fits).value, words)
  {
    if rules != [] {
      assert rules == [rules[0]] + rules[1..];
      FirstMatchIsAMatch(words, rules[1..], fits);
    }
  }

  lemma {:induction false} FirstMatchIsTop(words: Label, rules: seq<Rule>, fits: Test)
    requires RepositoryOrder(rules)
    requires FirstMatch(words, rules, fits).Some?
    ensures var r := FirstMatch(words, rules, fits).value;
      forall q :: q in rules && fits(q, words) ==> RankLe(q, r) || Tie(q, r)
  {
    assert rules == [rules[0]] + rules[1..];
    if !fits(rules[0], words) {
      FirstMatchIsTop(words, rules[1..], fits);
    }
  }

  /** Applying all rules in repository order and selecting one rule per label agree on whether a
      label is categorised and on the rank of the rule used; they agree on the rule itself unless
      another rule ties with it on priority and creation. */
  lemma BatchAgreesWithSelection(words: Label, rules: seq<Rule>, fits: Test)
    requires RepositoryOrder(rules)
    ensures var (first, best) := (FirstMatch(words, rules, fits), Select(words, rules, fits));
      && (first.None? <==> best.None?)
      && (first.Some? ==> Tie(first.value, best.value))
      && (first.Some? && (forall q :: q in rules && Tie(q, first.value) ==> q == first.value) ==> first == best)
  {
    FirstMatchIsAMatch(words, rules, fits);
    SelectIsBest(words, rules, fits);
    if FirstMatch(words, rules, fits).Some? {
      FirstMatchIsTop(words, rules, fits);
    }
  }

  /** A rule derived from a label recognises that label. */
  lemma DerivedRuleMatches(words: Label, rule: Rule)
    requires Derivable(words)
    requires DerivePattern(words) == Pattern(rule.pattern)
    ensures Matches(rule, words)
  {
    DerivedCounterpartyIsAPiece(words);
    PieceIsContained(Counterparty(rule.pattern), Counterparty(words));
  }

  /** The words that survive in the first five stand together: one at most, or a run of the five in which
      the first may end a longer word and the last begin one. */
  predicate SurvivorsStandTogether(words: Label) {
    var cut := First(Normalise(words));
    var left := Survivors(cut);
    |left| <= 1 || StandsIn(LowerWords(left), LowerWords(cut))
  }

  /** A rule derived from a label recognises that label exactly when the label is `Derivable` or the
      survivors of its first five words stand together. */
  lemma DerivedRuleMatchesExactly(words: Label, rule: Rule)
    requires SplitWords(words)
    requires DerivePattern(words) == Pattern(rule.pattern)
    ensures Matches(rule, words) <==> Derivable(words) || SurvivorsStandTogether(words)
  {
    DerivedPatternIs(words, rule.pattern);
    if Derivable(words) {
      DerivedRuleMatches(words, rule);
    } else {
      OtherwiseSurvivorsDecide(words);
      SurvivorsDecideByWords(words);
    }
  }

  lemma DerivedPatternIs(words: Label, pattern: Label)
    requires DerivePattern(words) == Pattern(pattern)
    ensures pattern == Counterparty(words)
  {
  }

  lemma OtherwiseSurvivorsDecide(words: Label)
    requires !Derivable(words)
    ensures var cut := First(Normalise(words));
      Contains(Lower(Join(cut)), Lower(Join(Survivors(cut)))) <==>
      Contains(Lower(Join(Counterparty(words))), Lower(Join(Counterparty(Counterparty(words)))))
  {
    var cut := First(Normalise(words));
    ReducedTwice(words);
    WholeOrPart(cut, Survivors(cut), Counterparty(cut));
  }

  lemma WholeOrPart(cut: Label, survivors: Label, part: Label)
    requires part == if survivors == [] then cut else survivors
    ensures Contains(Lower(Join(cut)), Lower(Join(part))) <==> Contains(Lower(Join(cut)), Lower(Join(survivors)))
  {
    var text := Lower(Join(cut));
    assert OccursAt(text, text, 0);
    assert OccursAt(text, Lower(Join([])), 0);
  }

  lemma SurvivorsDecideByWords(words: Label)
    requires SplitWords(words)
    ensures var cut := First(Normalise(words));
      Contains(Lower(Join(cut)), Lower(Join(Survivors(cut)))) <==> SurvivorsStandTogether(words)
  {
    var cut := First(Normalise(words));
    FirstWordsAreSplit(words);
    SurvivorsWords(cut);
    TextsByWords(Survivors(cut), cut);
  }

  lemma FirstWordsAreSplit(words: Label)
    requires SplitWords(words)
    ensures SplitWords(First(Normalise(words)))
  {
    forall i | 0 <= i < |words|
      ensures Upper(words[i]) != "" && ' ' !in Upper(words[i])
    {
      assert forall k :: 0 <= k < |words[i]| ==> words[i][k] in words[i];
    }
  }

  lemma TextsByWords(part: Label, words: Label)
    requires SplitWords(words) && forall w :: w in part ==> w in words
    ensures Contains(Lower(Join(words)), Lower(Join(part))) <==>
      |part| <= 1 || StandsIn(LowerWords(part), LowerWords(words))
  {
    if |part| <= 1 {
      AtMostOneWordIsAPiece(part, words);
      PieceIsContained(part, words);
    } else {
      forall i | 0 <= i < |part|
        ensures part[i] != "" && ' ' !in part[i]
      {
        assert part[i] in words;
      }
      LowerKeepsWords(part);
      LowerKeepsWords(words);
      LowerOfJoin(part);
      LowerOfJoin(words);
      ContainedExactlyWhenStanding(LowerWords(part), LowerWords(words));
    }
  }
}
