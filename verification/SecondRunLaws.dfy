/** When a second reconciliation, with nothing in between, may still change something. */
module SecondRunLaws {
  import opened LimitLaws
  import opened Pairing
  import opened PairingLaws
  import opened Reconciliation
  import opened ReconciliationLaws
  import opened Rules
  import opened TransactionLaws
  import opened Transactions
  import opened Wrappers

  ghost predicate OwnedBy(rules: seq<Rule>, c: Context) {
    forall i :: 0 <= i < |rules| ==> rules[i].owner == c.owner
  }

  // ----- A run leaves a table that is paired already

  /** Only rows that were neither categorised nor marked are categorised. */
  ghost predicate Careful(before: Table, after: Table) {
    Gentle(before, after) && forall id :: id in before && before[id].internal ==> after[id] == before[id]
  }

  lemma CarefulAddsUp(a: Table, b: Table, c: Table)
    requires Careful(a, b) && Careful(b, c)
    ensures Careful(a, c)
  {
    GentleAddsUp(a, b, c);
  }

  lemma RuleIsCareful(t: Table, rule: Rule, c: Context, u: Table)
    requires rule.owner == c.owner && RuleOutcome(t, rule, c, u)
    ensures Careful(t, u)
  {
    var listed :| Listing(listed, OpenRows(t, c))
      && u == ApplyRuleBatch(t, c.owners, rule, MatchesAmong(t, rule, c, listed));
    RuleBatchDoes(t, rule, c, listed);
  }

  lemma {:induction false} RulesAreCareful(t: Table, rules: seq<Rule>, c: Context, u: Table)
    requires OwnedBy(rules, c) && RulesOutcome(t, rules, c, u)
    ensures Careful(t, u)
    decreases |rules|
  {
    if rules != [] {
      var m :| RuleOutcome(t, rules[0], c, m) && RulesOutcome(m, rules[1..], c, u);
      RuleIsCareful(t, rules[0], c, m);
      RulesAreCareful(m, rules[1..], c, u);
      CarefulAddsUp(t, m, u);
    }
  }

  lemma DefaultIsCareful(t: Table, category: Option<nat>, c: Context, u: Table)
    requires DefaultOutcome(t, category, c, u)
    ensures Careful(t, u)
  {
    if category.Some? {
      var listed :| Listing(listed, UnsourcedRows(t, c))
        && u == ApplyDefaultBatch(t, c.owners, c.owner, category.value, CreditsAmong(t, listed));
      DefaultBatchDoes(t, category.value, c, listed);
    }
  }

  lemma CarefulRowStaysPaired(id: nat, r: Row, s: Row, paired: bool, c: Context)
    requires s == r || (GentleRow(r, s) && !r.internal && r.source == Uncategorised)
    requires r == PairingRow(r, paired)
    ensures c.Owns(s) <==> c.Owns(r)
    ensures PairingRow(s, paired) == s
    ensures Pairable(s, c) <==> Pairable(r, c)
    ensures Pairable(r, c) ==> MovementOf(id, s, c) == MovementOf(id, r, c)
  {
  }

  lemma PairingRowTwice(r: Row, paired: bool)
    ensures PairingRow(PairingRow(r, paired), paired) == PairingRow(r, paired)
  {
  }

  lemma PairedAlready(u: Table, c: Context, paired: set<nat>)
    requires PairedIds(Movements(u, c)) == paired
    requires forall id :: id in u && c.Owns(u[id]) ==> PairingRow(u[id], id in paired) == u[id]
    ensures AfterPairing(u, c) == u
  {
  }

  lemma CarefulRowsPairAlike(p: Table, u: Table, c: Context, paired: set<nat>)
    requires Careful(p, u)
    requires forall id :: id in p && c.Owns(p[id]) ==> p[id] == PairingRow(p[id], id in paired)
    ensures Movements(u, c) == Movements(p, c)
    ensures forall id :: id in u && c.Owns(u[id]) ==> PairingRow(u[id], id in paired) == u[id]
  {
    forall id | id in p
      ensures Pairable(u[id], c) <==> Pairable(p[id], c)
      ensures Pairable(p[id], c) ==> MovementOf(id, u[id], c) == MovementOf(id, p[id], c)
      ensures c.Owns(u[id]) ==> PairingRow(u[id], id in paired) == u[id]
    {
      assert GentleRow(p[id], u[id]);
      if c.Owns(p[id]) {
        CarefulRowStaysPaired(id, p[id], u[id], id in paired, c);
      }
    }
    SameMovements(p, u, c);
  }

  /** A second run pairs the same rows and the pairing stage changes none. */
  lemma OutcomeIsPaired(t: Table, rules: seq<Rule>, category: Option<nat>, c: Context, u: Table)
    requires OwnedBy(rules, c) && Outcome(t, rules, category, c, u)
    ensures AfterPairing(u, c) == u && Careful(AfterPairing(t, c), u)
  {
    var (p, paired) := (AfterPairing(t, c), PairedIds(Movements(t, c)));
    var m :| RulesOutcome(p, rules, c, m) && DefaultOutcome(m, category, c, u);
    RulesAreCareful(p, rules, c, m);
    DefaultIsCareful(m, category, c, u);
    CarefulAddsUp(p, m, u);
    PairedPairsAlike(t, c);
    forall id | id in p && c.Owns(p[id])
      ensures p[id] == PairingRow(p[id], id in paired)
    {
      PairedAt(t, c, id);
      PairingRowTwice(t[id], id in paired);
    }
    CarefulRowsPairAlike(p, u, c, paired);
    PairedAlready(u, c, paired);
  }

  // ----- Work left

  /** Rows some rule is for. */
  ghost function MatchedByAny(t: Table, rules: seq<Rule>, c: Context): set<nat> {
    set id | id in OpenRows(t, c) && t[id].source == Uncategorised && FirstMatch(t[id].words, rules, c.reading.fits).Some?
  }

  /** A row is left that a rule is for, or a credit that the default is for. */
  ghost predicate WorkLeft(t: Table, rules: seq<Rule>, category: Option<nat>, c: Context) {
    MatchedByAny(t, rules, c) != {} || (category.Some? && OpenCredits(t, c) != {})
  }

  lemma MatchedByFirstOrRest(t: Table, rules: seq<Rule>, c: Context)
    requires rules != []
    ensures MatchedByAny(t, rules, c) == Matched(t, rules[0], c) + MatchedByAny(t, rules[1..], c)
  {
  }

  lemma NothingDone(t: Table, u: Table, rule: Rule)
    requires RuleDone(t, u, rule, {})
    ensures u == t
  {
  }

  lemma RuleChangesNothing(t: Table, rule: Rule, c: Context, u: Table)
    requires rule.owner == c.owner && RuleOutcome(t, rule, c, u) && Matched(t, rule, c) == {}
    ensures u == t
  {
    var listed :| Listing(listed, OpenRows(t, c))
      && u == ApplyRuleBatch(t, c.owners, rule, MatchesAmong(t, rule, c, listed));
    RuleBatchDoes(t, rule, c, listed);
    assert listed * Matched(t, rule, c) == {};
    NothingDone(t, u, rule);
  }

  lemma {:induction false} NoMatchNoChange(t: Table, rules: seq<Rule>, c: Context, u: Table)
    requires OwnedBy(rules, c) && RulesOutcome(t, rules, c, u) && MatchedByAny(t, rules, c) == {}
    ensures u == t
    decreases |rules|
  {
    if rules != [] {
      var m :| RuleOutcome(t, rules[0], c, m) && RulesOutcome(m, rules[1..], c, u);
      MatchedByFirstOrRest(t, rules, c);
      RuleChangesNothing(t, rules[0], c, m);
      NoMatchNoChange(t, rules[1..], c, u);
    }
  }

  lemma NoCreditNoChange(t: Table, category: Option<nat>, c: Context, u: Table)
    requires DefaultOutcome(t, category, c, u) && (category.None? || OpenCredits(t, c) == {})
    ensures u == t
  {
    if category.Some? {
      DefaultStageCompleteExactly(t, category.value, c);
      assert DefaultStageComplete(t, category.value, c);
      DefaultStageDoes(t, category.value, c);
      SameDefaultDone(t, u, t, category.value, {});
    }
  }

  // ----- Work left can be done

  /** Some outcome of the rules; a row no rule is for stays as it was. */
  lemma {:induction false} RulesMissing(t: Table, rules: seq<Rule>, c: Context, x: nat) returns (u: Table)
    requires OwnedBy(rules, c) && x in t
    ensures RulesOutcome(t, rules, c, u) && x in u
    ensures GentleRow(t[x], u[x])
    ensures x !in MatchedByAny(t, rules, c) ==> u[x] == t[x]
    decreases |rules|
  {
    u := t;
    if rules != [] {
      var listed := SomeListing(OpenRows(t, c));
      var m := ApplyRuleBatch(t, c.owners, rules[0], MatchesAmong(t, rules[0], c, listed));
      RuleBatchDoes(t, rules[0], c, listed);
      assert RuleOutcome(t, rules[0], c, m);
      RuleIsCareful(t, rules[0], c, m);
      MatchedByFirstOrRest(t, rules, c);
      u := RulesMissing(m, rules[1..], c, x);
    }
  }

  /** Some outcome of the rules categorises a given row that one of them is for. */
  lemma {:induction false} RulesReaching(t: Table, rules: seq<Rule>, c: Context, x: nat) returns (u: Table)
    requires OwnedBy(rules, c) && x in MatchedByAny(t, rules, c)
    ensures RulesOutcome(t, rules, c, u) && x in u && u[x].source == ByRule
    decreases |rules|
  {
    if rules == [] {
      assert false;
    } else {
      MatchedByFirstOrRest(t, rules, c);
      var listed := ListingWith(OpenRows(t, c), x);
      var m := ApplyRuleBatch(t, c.owners, rules[0], MatchesAmong(t, rules[0], c, listed));
      RuleBatchDoes(t, rules[0], c, listed);
      assert RuleOutcome(t, rules[0], c, m);
      if x in Matched(t, rules[0], c) {
        u := RulesMissing(m, rules[1..], c, x);
      } else {
        assert m[x] == t[x];
        u := RulesReaching(m, rules[1..], c, x);
      }
    }
  }

  lemma DefaultReaching(t: Table, category: Option<nat>, c: Context, x: nat) returns (u: Table)
    requires x in t
    ensures DefaultOutcome(t, category, c, u) && x in u
    ensures GentleRow(t[x], u[x])
    ensures category.Some? && x in OpenCredits(t, c) ==> u[x].source == ByRule
  {
    u := t;
    if category.Some? {
      var listed;
      if x in UnsourcedRows(t, c) {
        listed := ListingWith(UnsourcedRows(t, c), x);
      } else {
        listed := SomeListing(UnsourcedRows(t, c));
      }
      DefaultBatchDoes(t, category.value, c, listed);
      u := ApplyDefaultBatch(t, c.owners, c.owner, category.value, CreditsAmong(t, listed));
    }
  }

  /** As long as work is left, some run changes the table. */
  lemma WorkLeftIsDone(t: Table, rules: seq<Rule>, category: Option<nat>, c: Context) returns (u: Table)
    requires OwnedBy(rules, c) && AfterPairing(t, c) == t
    requires WorkLeft(t, rules, category, c)
    ensures Outcome(t, rules, category, c, u) && u != t
  {
    if x :| x in MatchedByAny(t, rules, c) {
      var m := RulesReaching(t, rules, c, x);
      u := DefaultReaching(m, category, c, x);
      assert u[x].source == ByRule;
    } else {
      var x :| x in OpenCredits(t, c);
      var m := RulesMissing(t, rules, c, x);
      u := DefaultReaching(m, category, c, x);
      assert u[x].source == ByRule;
    }
  }

  // ----- When a second run changes nothing

  ghost predicate NothingMoreChanges(u: Table, rules: seq<Rule>, category: Option<nat>, c: Context) {
    forall v :: Outcome(u, rules, category, c, v) ==> v == u
  }

  /** After any run, a second one changes nothing, whatever its listings, exactly when no open row matches a
      rule any more and no open credit awaits a default. */
  lemma SecondRunChangesNothingExactly(t: Table, rules: seq<Rule>, category: Option<nat>, c: Context, u: Table)
    requires OwnedBy(rules, c) && Outcome(t, rules, category, c, u)
    ensures NothingMoreChanges(u, rules, category, c) <==> !WorkLeft(u, rules, category, c)
  {
    OutcomeIsPaired(t, rules, category, c, u);
    if WorkLeft(u, rules, category, c) {
      var v := WorkLeftIsDone(u, rules, category, c);
    } else {
      forall v | Outcome(u, rules, category, c, v)
        ensures v == u
      {
        var m :| RulesOutcome(AfterPairing(u, c), rules, c, m) && DefaultOutcome(m, category, c, v);
        NoMatchNoChange(u, rules, c, m);
        NoCreditNoChange(u, category, c, v);
      }
    }
  }

  ghost predicate Idempotent(t: Table, rules: seq<Rule>, category: Option<nat>, c: Context) {
    forall u :: Outcome(t, rules, category, c, u) ==> NothingMoreChanges(u, rules, category, c)
  }

  lemma NoRuleNoMatch(t: Table, c: Context)
    ensures MatchedByAny(t, [], c) == {}
  {
  }

  /** Without rules, reconciliation is idempotent exactly when there is no default category, when the rows
      without source fit in one listing, or when none of them is a credit. */
  lemma IdempotentWithoutRulesExactly(t: Table, category: Option<nat>, c: Context)
    ensures var p := AfterPairing(t, c);
      Idempotent(t, [], category, c) <==>
        category.None? || |UnsourcedRows(p, c)| <= LIMIT || OpenCredits(p, c) == {}
  {
    var p := AfterPairing(t, c);
    if category.None? || |UnsourcedRows(p, c)| <= LIMIT || OpenCredits(p, c) == {} {
      forall u | Outcome(t, [], category, c, u)
        ensures NothingMoreChanges(u, [], category, c)
      {
        SecondRunChangesNothingExactly(t, [], category, c, u);
        NoRuleNoMatch(u, c);
        if category.Some? {
          DefaultStageCompleteExactly(p, category.value, c);
          assert DefaultOutcome(p, category, c, u) && DefaultStageComplete(p, category.value, c);
          NoCreditAfterDefault(p, category.value, c);
        }
      }
    } else {
      var x :| x in OpenCredits(p, c);
      var u := DefaultMissing(p, category.value, c, x);
      assert RulesOutcome(p, [], c, p);
      SecondRunChangesNothingExactly(t, [], category, c, u);
      assert x in OpenCredits(u, c);
    }
  }

  lemma NoCreditAfterDefault(t: Table, category: nat, c: Context)
    ensures OpenCredits(AfterDefault(t, Some(category), c), c) == {}
  {
  }

  /** With one rule and no default, it is idempotent exactly when the open rows fit in one listing or the
      rule is for none of them. */
  lemma IdempotentWithOneRuleExactly(t: Table, rule: Rule, c: Context)
    requires rule.owner == c.owner
    ensures var p := AfterPairing(t, c);
      Idempotent(t, [rule], None, c) <==> |OpenRows(p, c)| <= LIMIT || Matched(p, rule, c) == {}
  {
    var p := AfterPairing(t, c);
    if |OpenRows(p, c)| <= LIMIT || Matched(p, rule, c) == {} {
      forall u | Outcome(t, [rule], None, c, u)
        ensures NothingMoreChanges(u, [rule], None, c)
      {
        SecondRunChangesNothingExactly(t, [rule], None, c, u);
        OneRuleOutcome(p, rule, c, u);
        RuleStageCompleteExactly(p, rule, c);
        assert RuleStageComplete(p, rule, c);
        NoMatchAfterRule(p, rule, c);
      }
    } else {
      var x :| x in Matched(p, rule, c);
      var u := RuleMissing(p, rule, c, x);
      OneRuleOutcome(p, rule, c, u);
      assert DefaultOutcome(u, None, c, u);
      SecondRunChangesNothingExactly(t, [rule], None, c, u);
      OnlyMatch(u, rule, c);
      assert x in Matched(u, rule, c);
    }
  }

  lemma OneRuleOutcome(t: Table, rule: Rule, c: Context, u: Table)
    ensures RulesOutcome(t, [rule], c, u) <==> RuleOutcome(t, rule, c, u)
  {
    assert [rule][0] == rule && [rule][1..] == [];
    if RuleOutcome(t, rule, c, u) {
      assert RulesOutcome(u, [rule][1..], c, u);
    }
  }

  lemma OnlyMatch(t: Table, rule: Rule, c: Context)
    ensures MatchedByAny(t, [rule], c) == Matched(t, rule, c)
  {
    MatchedByFirstOrRest(t, [rule], c);
    NoRuleNoMatch(t, c);
    assert [rule][1..] == [];
  }

  lemma NoMatchAfterRule(t: Table, rule: Rule, c: Context)
    ensures MatchedByAny(AfterRules(t, [rule], c), [rule], c) == {}
  {
    RuleStageDoes(t, rule, c);
    OnlyMatch(AfterRules(t, [rule], c), rule, c);
  }

  // ----- Within the limit

  lemma {:induction false} RulesWithinLimit(t: Table, rules: seq<Rule>, c: Context, u: Table)
    requires OwnedBy(rules, c) && RulesOutcome(t, rules, c, u) && |OpenRows(t, c)| <= LIMIT
    ensures u == AfterRules(t, rules, c)
    decreases |rules|
  {
    if rules == [] {
      NoRule(t, c);
    } else {
      var m :| RuleOutcome(t, rules[0], c, m) && RulesOutcome(m, rules[1..], c, u);
      RuleStageCompleteExactly(t, rules[0], c);
      assert RuleStageComplete(t, rules[0], c);
      RuleIsCareful(t, rules[0], c, m);
      GentleOpensNothing(t, m, c);
      RulesWithinLimit(m, rules[1..], c, u);
      FirstThenRest(t, rules, c);
    }
  }

  lemma FirstThenRest(t: Table, rules: seq<Rule>, c: Context)
    requires rules != []
    ensures AfterRules(AfterRules(t, [rules[0]], c), rules[1..], c) == AfterRules(t, rules, c)
  {
    forall id | id in t
      ensures AfterRules(AfterRules(t, [rules[0]], c), rules[1..], c)[id] == AfterRules(t, rules, c)[id]
    {
      FirstMatchOfOneMore(t[id].words, [], rules[0], c.reading.fits);
      assert [] + [rules[0]] == [rules[0]];
    }
  }

  /** Within the limit there is one outcome, and a second run leaves it alone: whatever the number of
      rules, reconciliation is idempotent. */
  lemma IdempotentWithinLimit(t: Table, rules: seq<Rule>, category: Option<nat>, c: Context)
    requires OwnedBy(rules, c) && WithinLimit(AfterPairing(t, c), c)
    ensures forall u :: Outcome(t, rules, category, c, u) ==> u == Reconciled(t, rules, category, c)
    ensures Idempotent(t, rules, category, c)
  {
    forall u | Outcome(t, rules, category, c, u)
      ensures u == Reconciled(t, rules, category, c)
    {
      OutcomeWithinLimit(t, rules, category, c, u);
    }
    ReconciliationIsIdempotent(t, rules, rules, category, c);
    var r := Reconciled(t, rules, category, c);
    forall v | Outcome(r, rules, category, c, v)
      ensures v == r
    {
      OutcomeWithinLimit(r, rules, category, c, v);
    }
  }

  lemma OutcomeWithinLimit(t: Table, rules: seq<Rule>, category: Option<nat>, c: Context, u: Table)
    requires OwnedBy(rules, c) && WithinLimit(AfterPairing(t, c), c)
    requires Outcome(t, rules, category, c, u)
    ensures u == Reconciled(t, rules, category, c)
  {
    var p := AfterPairing(t, c);
    var m :| RulesOutcome(p, rules, c, m) && DefaultOutcome(m, category, c, u);
    RulesWithinLimit(p, rules, c, m);
    StagesAreGentle(p, rules, category, c);
    GentleOpensNothing(p, m, c);
    if category.Some? {
      DefaultStageCompleteExactly(m, category.value, c);
      assert DefaultStageComplete(m, category.value, c);
    } else {
      assert AfterDefault(m, None, c) == m;
    }
  }

  // ----- A table beyond the limit

  function CreditRow(n: nat): Row {
    Row(1, seq(n, _ => 'x'), Booked, [], 500, None, None, None, Uncategorised, None, false)
  }

  function Below(n: nat): set<nat> {
    if n == 0 then {} else Below(n - 1) + {n - 1}
  }

  /** As many undated open credits as asked for. */
  function Many(n: nat): Table {
    map id | id in Below(n) :: CreditRow(id)
  }

  lemma {:induction false} BelowHas(n: nat)
    ensures |Below(n)| == n && forall id: nat :: id in Below(n) <==> id < n
  {
    if n > 0 {
      BelowHas(n - 1);
    }
  }

  lemma ManyAreSound(n: nat)
    ensures TableInvariant(Many(n))
  {
    forall i, j | i in Many(n) && j in Many(n) && RowKey(Many(n)[i]) == RowKey(Many(n)[j])
      ensures i == j
    {
      assert |CreditRow(i).externalId| == i && |CreditRow(j).externalId| == j;
    }
  }

  lemma ManyAreNotPaired(n: nat, c: Context)
    ensures AfterPairing(Many(n), c) == Many(n)
  {
    assert Movements(Many(n), c) == {};
    assert Lists([], {});
    PairedIdsOfListing([], {});
    NothingPaired();
    PairedAlready(Many(n), c, {});
  }

  lemma NothingPaired()
    ensures Ids(Faces(Paired([]))) == {}
  {
    CouplesAre([]);
    PairedIsStable([]);
    assert forall k :: k in Paired([]) ==> k in Elements(Paired([]));
    FacesAre(Paired([]));
  }

  lemma ManyAreOpenCredits(n: nat, c: Context)
    requires c.owners == map[1 := 7] && c.owner == 7
    ensures UnsourcedRows(Many(n), c) == Below(n) && OpenCredits(Many(n), c) == Below(n)
  {
    assert forall id :: id in Below(n) ==> Many(n)[id].account == 1;
  }

  /** With more open credits than a listing returns, reconciliation is not idempotent: a first run may leave
      a credit open, and a second one categorise it. */
  lemma BeyondTheLimitWorkRemains(n: nat, category: nat, reading: Reading)
    requires n > LIMIT
    ensures TableInvariant(Many(n)) && !Idempotent(Many(n), [], Some(category), Context(map[1 := 7], 7, reading))
  {
    var c := Context(map[1 := 7], 7, reading);
    ManyAreSound(n);
    ManyAreNotPaired(n, c);
    ManyAreOpenCredits(n, c);
    BelowHas(n);
    assert n - 1 in OpenCredits(Many(n), c);
    IdempotentWithoutRulesExactly(Many(n), Some(category), c);
  }
}
