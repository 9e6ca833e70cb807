/** One rule and a default category: exactly when reconciliation is idempotent, said of the table the pairing
    stage leaves. The listing of the rule may make room for that of the default. */
module RuleAndDefaultLaws {
  import opened LimitLaws
  import opened Reconciliation
  import opened ReconciliationLaws
  import opened Rules
  import opened SecondRunLaws
  import opened TransactionLaws
  import opened Transactions
  import opened Wrappers

  // ----- On a sound table both stages list the same rows

  lemma PairingRowIsSound(r: Row, paired: bool)
    requires RowInvariant(r)
    ensures RowInvariant(PairingRow(r, paired))
  {
  }

  lemma PairedTableListsAlike(t: Table, c: Context)
    requires TableInvariant(t)
    ensures OpenRows(AfterPairing(t, c), c) == UnsourcedRows(AfterPairing(t, c), c)
  {
    var p := AfterPairing(t, c);
    forall id | id in p
      ensures RowInvariant(p[id])
    {
      PairedAt(t, c, id);
      assert RowInvariant(t[id]);
      PairingRowIsSound(t[id], id in PairedIds(Movements(t, c)));
    }
  }

  // ----- What each stage leaves

  lemma RuleLeaves(p: Table, m: Table, rule: Rule, c: Context, done: set<nat>)
    requires RuleDone(p, m, rule, done) && done <= Matched(p, rule, c)
    ensures UnsourcedRows(m, c) == UnsourcedRows(p, c) - done
    ensures OpenCredits(m, c) == OpenCredits(p, c) - done
    ensures Matched(m, rule, c) == Matched(p, rule, c) - done
  {
  }

  lemma DefaultLeaves(m: Table, u: Table, category: nat, rule: Rule, c: Context, done: set<nat>)
    requires DefaultDone(m, u, category, done) && done <= OpenCredits(m, c)
    ensures OpenCredits(u, c) == OpenCredits(m, c) - done
    ensures Matched(u, rule, c) == Matched(m, rule, c) - done
  {
  }

  lemma RuleStageLeaves(p: Table, rule: Rule, c: Context, m: Table) returns (listed: set<nat>)
    requires rule.owner == c.owner && RuleOutcome(p, rule, c, m)
    ensures Listing(listed, OpenRows(p, c))
    ensures var done := listed * Matched(p, rule, c);
      && UnsourcedRows(m, c) == UnsourcedRows(p, c) - done
      && OpenCredits(m, c) == OpenCredits(p, c) - done
      && Matched(m, rule, c) == Matched(p, rule, c) - done
  {
    listed :| Listing(listed, OpenRows(p, c)) && m == ApplyRuleBatch(p, c.owners, rule, MatchesAmong(p, rule, c, listed));
    RuleBatchDoes(p, rule, c, listed);
    RuleLeaves(p, m, rule, c, listed * Matched(p, rule, c));
  }

  lemma SomeDefault(m: Table, category: nat, rule: Rule, c: Context) returns (u: Table)
    ensures DefaultOutcome(m, Some(category), c, u)
    ensures Matched(u, rule, c) >= Matched(m, rule, c) - OpenCredits(m, c)
  {
    var listed := SomeListing(UnsourcedRows(m, c));
    DefaultBatchDoes(m, category, c, listed);
    u := ApplyDefaultBatch(m, c.owners, c.owner, category, CreditsAmong(m, listed));
    DefaultLeaves(m, u, category, rule, c, listed * OpenCredits(m, c));
  }

  lemma SameRow(p: Table, m: Table, rule: Rule, c: Context, x: nat)
    requires p.Keys == m.Keys && x in p && m[x] == p[x]
    ensures x in Matched(p, rule, c) <==> x in Matched(m, rule, c)
    ensures x in OpenCredits(p, c) <==> x in OpenCredits(m, c)
  {
  }

  // ----- How many matched rows a listing reaches

  lemma SizeOfParts(rows: set<nat>, part: set<nat>)
    ensures |rows| == |rows * part| + |rows - part|
  {
    assert rows == rows * part + (rows - part);
  }

  /** A full listing reaches at least as many rows of `part` as do not fit outside it. */
  lemma ListingReaches(listed: set<nat>, rows: set<nat>, part: set<nat>)
    requires Listing(listed, rows) && part <= rows && |rows| > LIMIT
    ensures |listed * part| >= LIMIT - (|rows| - |part|)
  {
    SizeOfParts(listed, part);
    SizeOfParts(rows, part);
    assert rows * part == part;
    SmallerSet(listed - part, rows - part);
  }

  /** Some full listing reaches no more of them. */
  lemma ListingSparing(rows: set<nat>, part: set<nat>) returns (listed: set<nat>)
    requires part <= rows && |rows| > LIMIT
    ensures Listing(listed, rows)
    ensures |listed * part| == if |rows| - |part| >= LIMIT then 0 else LIMIT - (|rows| - |part|)
  {
    SizeOfParts(rows, part);
    assert rows * part == part;
    if |rows| - |part| >= LIMIT {
      listed := SubsetOfSize(rows - part, LIMIT);
      assert listed * part == {};
    } else {
      var reached := SubsetOfSize(part, LIMIT - (|rows| - |part|));
      listed := (rows - part) + reached;
      assert listed * part == reached;
    }
  }

  // ----- Runs of one rule and a default

  lemma OneRuleThenDefault(t: Table, rule: Rule, category: nat, c: Context, m: Table, u: Table)
    requires RuleOutcome(AfterPairing(t, c), rule, c, m) && DefaultOutcome(m, Some(category), c, u)
    ensures Outcome(t, [rule], Some(category), c, u)
  {
    OneRuleOutcome(AfterPairing(t, c), rule, c, m);
  }

  lemma WorkLeftByOneRule(u: Table, rule: Rule, category: nat, c: Context)
    ensures WorkLeft(u, [rule], Some(category), c) <==> Matched(u, rule, c) != {} || OpenCredits(u, c) != {}
  {
    OnlyMatch(u, rule, c);
  }

  /** The condition on the table the pairing leaves: everything fits in one listing; or what the rule is for
      are credits, and either there is no credit at all or the rule always makes enough room for the
      default to list the rest. */
  ghost predicate MakesRoom(p: Table, rule: Rule, c: Context) {
    var (open, matched, credits) := (OpenRows(p, c), Matched(p, rule, c), OpenCredits(p, c));
    || |open| <= LIMIT
    || (matched <= credits && (credits == {} || |matched| >= 2 * (|open| - LIMIT)))
  }

  lemma DefaultReachesTheRest(m: Table, u: Table, category: nat, rule: Rule, c: Context)
    requires DefaultOutcome(m, Some(category), c, u) && |UnsourcedRows(m, c)| <= LIMIT
    ensures OpenCredits(u, c) == {} && Matched(u, rule, c) == Matched(m, rule, c) - OpenCredits(m, c)
  {
    DefaultStageCompleteExactly(m, category, c);
    assert DefaultStageComplete(m, category, c);
    DefaultStageDoes(m, category, c);
    DefaultLeaves(m, u, category, rule, c, OpenCredits(m, c));
  }

  /** With room made, no run leaves work. */
  lemma RoomLeavesNoWork(p: Table, rule: Rule, category: nat, c: Context, m: Table, u: Table)
    requires rule.owner == c.owner && OpenRows(p, c) == UnsourcedRows(p, c)
    requires MakesRoom(p, rule, c)
    requires RuleOutcome(p, rule, c, m) && DefaultOutcome(m, Some(category), c, u)
    ensures Matched(u, rule, c) == {} && OpenCredits(u, c) == {}
  {
    var (open, matched, credits) := (OpenRows(p, c), Matched(p, rule, c), OpenCredits(p, c));
    var listed := RuleStageLeaves(p, rule, c, m);
    if |open| > LIMIT && credits == {} {
      NoCreditNoChange(m, Some(category), c, u);
    } else {
      RoomForTheRest(listed, open, matched);
      DefaultReachesTheRest(m, u, category, rule, c);
    }
  }

  lemma RoomForTheRest(listed: set<nat>, open: set<nat>, matched: set<nat>)
    requires Listing(listed, open) && matched <= open
    requires |open| <= LIMIT || |matched| >= 2 * (|open| - LIMIT)
    ensures |open - listed * matched| <= LIMIT
    ensures |open| <= LIMIT ==> matched - listed * matched == {}
  {
    var done := listed * matched;
    SizeOfParts(open, done);
    assert open * done == done;
    if |open| <= LIMIT {
      WholeListing(listed, open);
    } else {
      ListingReaches(listed, open, matched);
    }
  }

  /** A row the rule is for that is no credit may be missed, and nothing else takes it. */
  lemma MatchedDebitIsMissed(p: Table, rule: Rule, category: nat, c: Context, x: nat) returns (m: Table, u: Table)
    requires rule.owner == c.owner && |OpenRows(p, c)| > LIMIT
    requires x in Matched(p, rule, c) && x !in OpenCredits(p, c)
    ensures RuleOutcome(p, rule, c, m) && DefaultOutcome(m, Some(category), c, u)
    ensures Matched(u, rule, c) != {}
  {
    m := RuleMissing(p, rule, c, x);
    SameRow(p, m, rule, c, x);
    u := SomeDefault(m, category, rule, c);
    assert x in Matched(u, rule, c);
  }

  /** When the rule may leave more rows than a listing returns, a credit among them may be missed. */
  lemma CreditIsMissed(p: Table, rule: Rule, category: nat, c: Context) returns (m: Table, u: Table)
    requires rule.owner == c.owner && OpenRows(p, c) == UnsourcedRows(p, c)
    requires |OpenRows(p, c)| > LIMIT && Matched(p, rule, c) <= OpenCredits(p, c) != {}
    requires |Matched(p, rule, c)| < 2 * (|OpenRows(p, c)| - LIMIT)
    ensures RuleOutcome(p, rule, c, m) && DefaultOutcome(m, Some(category), c, u)
    ensures OpenCredits(u, c) != {}
  {
    var (open, matched) := (OpenRows(p, c), Matched(p, rule, c));
    var listed := ListingSparing(open, matched);
    var done := listed * matched;
    RuleBatchDoes(p, rule, c, listed);
    m := ApplyRuleBatch(p, c.owners, rule, MatchesAmong(p, rule, c, listed));
    RuleLeaves(p, m, rule, c, done);
    SizeOfParts(open, done);
    assert open * done == done;
    var y := CreditLeft(OpenCredits(p, c), matched, done);
    u := DefaultMissing(m, category, c, y);
    assert y in OpenCredits(u, c);
  }

  lemma CreditLeft(credits: set<nat>, matched: set<nat>, done: set<nat>) returns (y: nat)
    requires done <= matched <= credits && credits != {}
    requires |done| < |matched| || done == {}
    ensures y in credits - done
  {
    if done == {} {
      y :| y in credits;
    } else {
      assert matched != done;
      y :| y in matched && y !in done;
    }
  }

  lemma WithoutRoomWorkIsLeft(p: Table, rule: Rule, category: nat, c: Context) returns (m: Table, u: Table)
    requires rule.owner == c.owner && OpenRows(p, c) == UnsourcedRows(p, c)
    requires !MakesRoom(p, rule, c)
    ensures RuleOutcome(p, rule, c, m) && DefaultOutcome(m, Some(category), c, u)
    ensures Matched(u, rule, c) != {} || OpenCredits(u, c) != {}
  {
    if x :| x in Matched(p, rule, c) && x !in OpenCredits(p, c) {
      m, u := MatchedDebitIsMissed(p, rule, category, c, x);
    } else {
      assert Matched(p, rule, c) <= OpenCredits(p, c);
      m, u := CreditIsMissed(p, rule, category, c);
    }
  }

  /** With one rule and a default, on a sound table, no second run ever changes a row exactly when the rule
      makes room. */
  lemma IdempotentWithRuleAndDefaultExactly(t: Table, rule: Rule, category: nat, c: Context)
    requires TableInvariant(t) && rule.owner == c.owner
    ensures Idempotent(t, [rule], Some(category), c) <==> MakesRoom(AfterPairing(t, c), rule, c)
  {
    PairedTableListsAlike(t, c);
    if MakesRoom(AfterPairing(t, c), rule, c) {
      RoomMakesIdempotent(t, rule, category, c);
    } else {
      WithoutRoomNotIdempotent(t, rule, category, c);
    }
  }

  lemma RoomMakesIdempotent(t: Table, rule: Rule, category: nat, c: Context)
    requires rule.owner == c.owner && OpenRows(AfterPairing(t, c), c) == UnsourcedRows(AfterPairing(t, c), c)
    requires MakesRoom(AfterPairing(t, c), rule, c)
    ensures Idempotent(t, [rule], Some(category), c)
  {
    forall u | Outcome(t, [rule], Some(category), c, u)
      ensures NothingMoreChanges(u, [rule], Some(category), c)
    {
      var m :| RulesOutcome(AfterPairing(t, c), [rule], c, m) && DefaultOutcome(m, Some(category), c, u);
      OneRuleOutcome(AfterPairing(t, c), rule, c, m);
      RoomLeavesNoWork(AfterPairing(t, c), rule, category, c, m, u);
      WorkLeftByOneRule(u, rule, category, c);
      SecondRunChangesNothingExactly(t, [rule], Some(category), c, u);
    }
  }

  lemma WithoutRoomNotIdempotent(t: Table, rule: Rule, category: nat, c: Context)
    requires rule.owner == c.owner && OpenRows(AfterPairing(t, c), c) == UnsourcedRows(AfterPairing(t, c), c)
    requires !MakesRoom(AfterPairing(t, c), rule, c)
    ensures !Idempotent(t, [rule], Some(category), c)
  {
    var m, u := WithoutRoomWorkIsLeft(AfterPairing(t, c), rule, category, c);
    OneRuleThenDefault(t, rule, category, c, m, u);
    WorkLeftByOneRule(u, rule, category, c);
    SecondRunChangesNothingExactly(t, [rule], Some(category), c, u);
  }
}
