/** Reconciliation is idempotent, never undoes a decision of the owner, and its rule stage agrees with
    the rule chosen when a transaction is stored. */
module ReconciliationLaws {
  import opened LabelLaws
  import opened LimitLaws
  import opened Reconciliation
  import opened RuleLaws
  import opened Rules
  import opened TransactionLaws
  import opened Transactions
  import opened Wrappers

  ghost predicate SameRules(rules: seq<Rule>, others: seq<Rule>) {
    forall rule :: rule in rules <==> rule in others
  }

  /** A reconciled row has nothing left for a second reconciliation to do, even if tied rules come
      in another order. */
  lemma ReconciledRowIsSettled(
      r: Row, paired: bool, rules: seq<Rule>, others: seq<Rule>, category: Option<nat>, c: Context)
    requires SameRules(rules, others)
    ensures var s := ReconciledRow(r, paired, rules, category, c);
      PairingRow(s, paired) == s && RulesRow(s, others, c) == s && DefaultRow(s, category) == s
  {
    FirstMatchIsAMatch(r.words, rules, c.reading.fits);
    FirstMatchIsAMatch(r.words, others, c.reading.fits);
  }

  /** Reconciliation leaves what the pairing reads of a row as it was. */
  lemma ReconciledRowPairsAlike(
      id: nat, r: Row, paired: bool, rules: seq<Rule>, category: Option<nat>, c: Context)
    ensures var s := ReconciledRow(r, paired, rules, category, c);
      && (Pairable(s, c) <==> Pairable(r, c))
      && (Pairable(r, c) ==> MovementOf(id, s, c) == MovementOf(id, r, c))
  {
  }

  lemma ReconciledAt(t: Table, rules: seq<Rule>, category: Option<nat>, c: Context, id: nat)
    requires id in t
    ensures id in Reconciled(t, rules, category, c)
    ensures Reconciled(t, rules, category, c)[id] ==
      if c.Owns(t[id]) then ReconciledRow(t[id], id in PairedIds(Movements(t, c)), rules, category, c) else t[id]
  {
  }

  lemma ReconciledPairsAlike(t: Table, rules: seq<Rule>, category: Option<nat>, c: Context)
    ensures Movements(Reconciled(t, rules, category, c), c) == Movements(t, c)
  {
    var u := Reconciled(t, rules, category, c);
    assert u.Keys == t.Keys;
    forall id | id in t
      ensures Pairable(u[id], c) <==> Pairable(t[id], c)
      ensures Pairable(t[id], c) ==> MovementOf(id, u[id], c) == MovementOf(id, t[id], c)
    {
      ReconciledAt(t, rules, category, c, id);
      ReconciledRowPairsAlike(id, t[id], id in PairedIds(Movements(t, c)), rules, category, c);
    }
  }

  /** Run again with nothing in between, reconciliation changes no row and categorises none, whatever
      the order in which rows and tied rules are listed the second time; and it stays within the
      listing limit if it was. */
  lemma ReconciliationIsIdempotent(
      t: Table, rules: seq<Rule>, others: seq<Rule>, category: Option<nat>, c: Context)
    requires SameRules(rules, others)
    ensures var u := Reconciled(t, rules, category, c);
      && AfterPairing(u, c) == u
      && Reconciled(u, others, category, c) == u
      && Categorised(AfterPairing(u, c), Reconciled(u, others, category, c)) == {}
      && (WithinLimit(AfterPairing(t, c), c) ==> WithinLimit(AfterPairing(u, c), c))
  {
    var u := Reconciled(t, rules, category, c);
    ReconciledPairsAlike(t, rules, category, c);
    var paired := PairedIds(Movements(t, c));
    forall id | id in t
      ensures c.Owns(u[id]) ==>
        && PairingRow(u[id], id in paired) == u[id]
        && RulesRow(u[id], others, c) == u[id]
        && DefaultRow(u[id], category) == u[id]
    {
      ReconciledAt(t, rules, category, c, id);
      ReconciledRowIsSettled(t[id], id in paired, rules, others, category, c);
    }
    assert u.Keys == t.Keys;
    assert AfterPairing(u, c) == u;
    assert AfterRules(u, others, c) == u;
    assert AfterDefault(u, category, c) == u;
    ReconciledStaysWithinLimit(t, rules, category, c);
  }

  lemma ReconciledStaysWithinLimit(t: Table, rules: seq<Rule>, category: Option<nat>, c: Context)
    ensures WithinLimit(AfterPairing(t, c), c) ==> WithinLimit(Reconciled(t, rules, category, c), c)
  {
    var p := AfterPairing(t, c);
    var q := AfterRules(p, rules, c);
    StagesAreGentle(p, rules, category, c);
    StagesAreGentle(q, rules, category, c);
    GentleAddsUp(p, q, AfterDefault(q, category, c));
    GentleOpensNothing(p, AfterDefault(q, category, c), c);
  }

  /** Reconciliation keeps the table invariant and every decision of the owner. */
  lemma ReconciliationKeepsDecisions(t: Table, rules: seq<Rule>, category: Option<nat>, c: Context)
    requires TableInvariant(t)
    ensures TableInvariant(Reconciled(t, rules, category, c))
    ensures forall id :: id in t && t[id].source == Manual ==>
      SameDecision(t[id], Reconciled(t, rules, category, c)[id])
    ensures forall id :: id in t && !c.Owns(t[id]) ==> Reconciled(t, rules, category, c)[id] == t[id]
  {
    var u := Reconciled(t, rules, category, c);
    assert u.Keys == t.Keys;
    forall id | id in t
      ensures RowKey(u[id]) == RowKey(t[id]) && RowInvariant(u[id])
      ensures t[id].source == Manual ==> SameDecision(t[id], u[id])
      ensures !c.Owns(t[id]) ==> u[id] == t[id]
    {
      ReconciledAt(t, rules, category, c, id);
      ReconciledRowKeeps(t[id], id in PairedIds(Movements(t, c)), rules, category, c);
    }
    SameKeysStayUnique(t, u);
  }

  lemma ReconciledRowKeeps(r: Row, paired: bool, rules: seq<Rule>, category: Option<nat>, c: Context)
    requires RowInvariant(r)
    ensures var s := ReconciledRow(r, paired, rules, category, c);
      RowKey(s) == RowKey(r) && RowInvariant(s) && (r.source == Manual ==> SameDecision(r, s))
  {
  }

  /** A categorisation by rule outlives reconciliation exactly when the row is not paired, or is marked
      already under the system category: pairing drops it otherwise. */
  lemma RuleCategorisationKeptExactly(t: Table, rules: seq<Rule>, category: Option<nat>, c: Context, id: nat)
    requires id in t && c.Owns(t[id]) && RowInvariant(t[id]) && t[id].source == ByRule
    ensures var (r, u) := (t[id], Reconciled(t, rules, category, c));
      id in u
      && (u[id].category == r.category && u[id].source == r.source && u[id].rule == r.rule <==>
            id !in PairedIds(Movements(t, c)) || (r.internal && r.category == Some(INTERNAL_TRANSFERS)))
  {
    ReconciledAt(t, rules, category, c, id);
    RowCategorisationKept(t[id], id in PairedIds(Movements(t, c)), rules, category, c);
  }

  lemma RowCategorisationKept(r: Row, paired: bool, rules: seq<Rule>, category: Option<nat>, c: Context)
    requires RowInvariant(r) && r.source == ByRule
    ensures var s := ReconciledRow(r, paired, rules, category, c);
      s.category == r.category && s.source == r.source && s.rule == r.rule <==>
        !paired || (r.internal && r.category == Some(INTERNAL_TRANSFERS))
  {
  }

  lemma SameKeysStayUnique(t: Table, u: Table)
    requires UniqueKeys(t) && u.Keys == t.Keys
    requires forall id :: id in t ==> RowKey(u[id]) == RowKey(t[id])
    ensures UniqueKeys(u)
  {
  }

  lemma PairedAt(t: Table, c: Context, id: nat)
    requires id in t
    ensures id in AfterPairing(t, c)
    ensures AfterPairing(t, c)[id] ==
      if c.Owns(t[id]) then PairingRow(t[id], id in PairedIds(Movements(t, c))) else t[id]
  {
  }

  lemma PairingRowPairsAlike(id: nat, r: Row, paired: bool, c: Context)
    ensures var s := PairingRow(r, paired);
      && (Pairable(s, c) <==> Pairable(r, c))
      && (Pairable(r, c) ==> MovementOf(id, s, c) == MovementOf(id, r, c))
  {
  }

  /** Tables whose rows the pairing reads alike have the same movements. */
  lemma SameMovements(t: Table, u: Table, c: Context)
    requires t.Keys == u.Keys
    requires forall id :: id in t ==> (Pairable(u[id], c) <==> Pairable(t[id], c))
    requires forall id :: id in t && Pairable(t[id], c) && Pairable(u[id], c) ==>
      MovementOf(id, u[id], c) == MovementOf(id, t[id], c)
    ensures Movements(u, c) == Movements(t, c)
  {
  }

  /** Pairing leaves what it reads of the rows as it was. */
  lemma PairedPairsAlike(t: Table, c: Context)
    ensures Movements(AfterPairing(t, c), c) == Movements(t, c)
  {
    var u := AfterPairing(t, c);
    assert u.Keys == t.Keys;
    forall id | id in t
      ensures Pairable(u[id], c) <==> Pairable(t[id], c)
      ensures Pairable(t[id], c) ==> MovementOf(id, u[id], c) == MovementOf(id, t[id], c)
    {
      PairedAt(t, c, id);
      PairingRowPairsAlike(id, t[id], id in PairedIds(Movements(t, c)), c);
    }
    SameMovements(t, u, c);
  }

  /** The rule stage on the table: without ties, an open row gets the rule that would be selected for its
      label, or stays as it is. */
  lemma RuleStageAgreesWithSelection(t: Table, rules: seq<Rule>, c: Context, id: nat)
    requires RepositoryOrder(rules)
    requires forall p, q :: p in rules && q in rules && Tie(p, q) ==> p == q
    requires id in t && c.Owns(t[id]) && Open(t[id]) && t[id].source == Uncategorised
    ensures id in AfterRules(t, rules, c)
    ensures AfterRules(t, rules, c)[id] ==
      match Select(t[id].words, rules, c.reading.fits)
      case Some(rule) => RuleApplied(t[id], rule)
      case None => t[id]
  {
    BatchAgreesWithSelection(t[id].words, rules, c.reading.fits);
    FirstMatchIsAMatch(t[id].words, rules, c.reading.fits);
  }

  /** Storing a transaction and reconciling an uncategorised one choose the same rule, unless rules
      tie on priority and creation. */
  lemma StoringAgreesWithReconciling(d: Delivery, rules: seq<Rule>, c: Context)
    requires RepositoryOrder(rules)
    requires forall p, q :: p in rules && q in rules && Tie(p, q) ==> p == q
    ensures SavedRow(d, rules, c.reading.fits) == RulesRow(NewRow(d), rules, c)
  {
    BatchAgreesWithSelection(d.words, rules, c.reading.fits);
    FirstMatchIsAMatch(d.words, rules, c.reading.fits);
  }

  /** What reconciliation leaves behind, whatever path a row took. Paired rows are marked and carry no
      automatic category; rows that are not keep the mark only under the system category. A row left
      open matches no rule, no credit is left open when there is a default category, a row newly given
      a rule has the first that matches, and one newly given the default is an unmatched credit. */
  lemma ReconciledRowIsComplete(r: Row, paired: bool, rules: seq<Rule>, category: Option<nat>, c: Context)
    requires RowInvariant(r)
    ensures var s := ReconciledRow(r, paired, rules, category, c);
      && (s.internal <==> paired || (r.internal && r.category == Some(INTERNAL_TRANSFERS)))
      && (paired && s.category.Some? ==> s.source == Manual || (r.internal && s.category == Some(INTERNAL_TRANSFERS)))
      && (Open(s) ==> forall rule :: rule in rules ==> !c.reading.fits(rule, s.words))
      && (category.Some? ==> !OpenCredit(s))
      && (r.source == Uncategorised && s.rule.Some? ==>
            var first := FirstMatch(r.words, rules, c.reading.fits);
            first.Some? && s == RuleApplied(s.(internal := false), first.value))
      && (r.source == Uncategorised && s.source == ByRule && s.rule.None? ==>
            && s.category == category && s.cents >= 0
            && forall rule :: rule in rules ==> !c.reading.fits(rule, s.words))
  {
    FirstMatchIsAMatch(r.words, rules, c.reading.fits);
  }

  /** A rule derived from an open transaction and applied retroactively reaches that transaction, whatever
      the listing, exactly when the open rows fit in one. */
  lemma DerivedRuleReachesItsTransaction(t: Table, id: nat, rule: Rule, c: Context)
    requires c.reading == PROGRAM && rule.owner == c.owner
    requires id in t && c.Owns(t[id]) && Open(t[id]) && t[id].source == Uncategorised
    requires Derivable(t[id].words) && DerivePattern(t[id].words) == Pattern(rule.pattern)
    ensures AlwaysReached(t, rule, c, id) <==> |OpenRows(t, c)| <= LIMIT
  {
    DerivedRuleMatches(t[id].words, rule);
    MatchedRowIsReachedExactly(t, rule, c, id);
  }

  ghost predicate AlwaysReached(t: Table, rule: Rule, c: Context, id: nat)
    requires id in t
  {
    forall u :: RuleOutcome(t, rule, c, u) ==> id in u && u[id] == RuleApplied(t[id], rule)
  }

  lemma MatchedRowIsReachedExactly(t: Table, rule: Rule, c: Context, id: nat)
    requires rule.owner == c.owner && id in Matched(t, rule, c)
    ensures AlwaysReached(t, rule, c, id) <==> |OpenRows(t, c)| <= LIMIT
  {
    if |OpenRows(t, c)| <= LIMIT {
      RuleStageCompleteExactly(t, rule, c);
      RuleStageDoes(t, rule, c);
      assert RuleStageComplete(t, rule, c);
    } else {
      var u := RuleMissing(t, rule, c, id);
      assert u[id].source != ByRule;
    }
  }
}
