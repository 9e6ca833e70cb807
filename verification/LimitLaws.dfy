/** What the limit on listings costs one stage: exactly when it does all it should, whatever its listing. */
module LimitLaws {
  import opened Reconciliation
  import opened Rules
  import opened Transactions
  import opened Wrappers

  // ----- Listings

  lemma {:induction false} SubsetOfSize(s: set<nat>, n: nat) returns (part: set<nat>)
    requires n <= |s|
    ensures part <= s && |part| == n
  {
    part := {};
    if n > 0 {
      var x :| x in s;
      part := SubsetOfSize(s - {x}, n - 1);
      part := part + {x};
    }
  }

  lemma SomeListing(rows: set<nat>) returns (listed: set<nat>)
    ensures Listing(listed, rows)
  {
    listed := SubsetOfSize(rows, if |rows| <= LIMIT then |rows| else LIMIT);
  }

  lemma ListingWith(rows: set<nat>, x: nat) returns (listed: set<nat>)
    requires x in rows
    ensures Listing(listed, rows) && x in listed
  {
    if |rows| <= LIMIT {
      listed := rows;
    } else {
      listed := SubsetOfSize(rows - {x}, LIMIT - 1);
      listed := listed + {x};
    }
  }

  lemma ListingWithout(rows: set<nat>, x: nat) returns (listed: set<nat>)
    requires x in rows && |rows| > LIMIT
    ensures Listing(listed, rows) && x !in listed
  {
    listed := SubsetOfSize(rows - {x}, LIMIT);
  }

  lemma WholeListing(listed: set<nat>, rows: set<nat>)
    requires Listing(listed, rows) && |rows| <= LIMIT
    ensures listed == rows
  {
    assert rows == listed + (rows - listed);
  }

  // ----- One stage

  /** The rows a rule is for. */
  ghost function Matched(t: Table, rule: Rule, c: Context): set<nat> {
    set id | id in OpenRows(t, c) && t[id].source == Uncategorised && c.reading.fits(rule, t[id].words)
  }

  /** `u` is `t` with the rows of `done` categorised by the rule. */
  ghost predicate RuleDone(t: Table, u: Table, rule: Rule, done: set<nat>) {
    && u.Keys == t.Keys
    && forall id :: id in t ==> u[id] == if id in done then RuleApplied(t[id], rule) else t[id]
  }

  ghost predicate DefaultDone(t: Table, u: Table, category: nat, done: set<nat>) {
    && u.Keys == t.Keys
    && forall id :: id in t ==> u[id] == if id in done then Defaulted(t[id], category) else t[id]
  }

  lemma RuleBatchDoes(t: Table, rule: Rule, c: Context, listed: set<nat>)
    requires rule.owner == c.owner && listed <= OpenRows(t, c)
    ensures RuleDone(
      t, ApplyRuleBatch(t, c.owners, rule, MatchesAmong(t, rule, c, listed)), rule, listed * Matched(t, rule, c))
  {
  }

  lemma DefaultBatchDoes(t: Table, category: nat, c: Context, listed: set<nat>)
    requires listed <= UnsourcedRows(t, c)
    ensures DefaultDone(
      t, ApplyDefaultBatch(t, c.owners, c.owner, category, CreditsAmong(t, listed)), category,
      listed * OpenCredits(t, c))
  {
  }

  lemma RuleStageDoes(t: Table, rule: Rule, c: Context)
    ensures RuleDone(t, AfterRules(t, [rule], c), rule, Matched(t, rule, c))
  {
    forall id | id in t
      ensures AfterRules(t, [rule], c)[id] == if id in Matched(t, rule, c) then RuleApplied(t[id], rule) else t[id]
    {
      FirstMatchOfOneMore(t[id].words, [], rule, c.reading.fits);
      assert [] + [rule] == [rule];
    }
  }

  lemma DefaultStageDoes(t: Table, category: nat, c: Context)
    ensures DefaultDone(t, AfterDefault(t, Some(category), c), category, OpenCredits(t, c))
  {
  }

  lemma SameRuleDone(t: Table, u: Table, v: Table, rule: Rule, done: set<nat>)
    requires RuleDone(t, u, rule, done) && RuleDone(t, v, rule, done)
    ensures u == v
  {
  }

  lemma SameDefaultDone(t: Table, u: Table, v: Table, category: nat, done: set<nat>)
    requires DefaultDone(t, u, category, done) && DefaultDone(t, v, category, done)
    ensures u == v
  {
  }

  ghost predicate RuleStageComplete(t: Table, rule: Rule, c: Context) {
    forall u :: RuleOutcome(t, rule, c, u) ==> u == AfterRules(t, [rule], c)
  }

  ghost predicate DefaultStageComplete(t: Table, category: nat, c: Context) {
    forall u :: DefaultOutcome(t, Some(category), c, u) ==> u == AfterDefault(t, Some(category), c)
  }

  /** Applying a rule reaches every row it is for, whatever the listing, exactly when the open rows fit in
      one listing or the rule is for none of them. */
  lemma RuleStageCompleteExactly(t: Table, rule: Rule, c: Context)
    requires rule.owner == c.owner
    ensures RuleStageComplete(t, rule, c) <==> |OpenRows(t, c)| <= LIMIT || Matched(t, rule, c) == {}
  {
    var (open, matched) := (OpenRows(t, c), Matched(t, rule, c));
    RuleStageDoes(t, rule, c);
    if |open| <= LIMIT || matched == {} {
      forall u | RuleOutcome(t, rule, c, u)
        ensures u == AfterRules(t, [rule], c)
      {
        var listed :| Listing(listed, open) && u == ApplyRuleBatch(t, c.owners, rule, MatchesAmong(t, rule, c, listed));
        RuleBatchDoes(t, rule, c, listed);
        if |open| <= LIMIT {
          WholeListing(listed, open);
        }
        assert listed * matched == matched;
        SameRuleDone(t, u, AfterRules(t, [rule], c), rule, matched);
      }
    } else {
      var x :| x in matched;
      var u := RuleMissing(t, rule, c, x);
      assert AfterRules(t, [rule], c)[x].source == ByRule;
    }
  }

  /** With more open rows than one listing returns, a rule may miss any of them. */
  lemma RuleMissing(t: Table, rule: Rule, c: Context, x: nat) returns (u: Table)
    requires rule.owner == c.owner && x in Matched(t, rule, c) && |OpenRows(t, c)| > LIMIT
    ensures RuleOutcome(t, rule, c, u) && u.Keys == t.Keys && u[x] == t[x]
  {
    var listed := ListingWithout(OpenRows(t, c), x);
    RuleBatchDoes(t, rule, c, listed);
    u := ApplyRuleBatch(t, c.owners, rule, MatchesAmong(t, rule, c, listed));
  }

  lemma DefaultMissing(t: Table, category: nat, c: Context, x: nat) returns (u: Table)
    requires x in OpenCredits(t, c) && |UnsourcedRows(t, c)| > LIMIT
    ensures DefaultOutcome(t, Some(category), c, u) && u.Keys == t.Keys && u[x] == t[x]
  {
    var listed := ListingWithout(UnsourcedRows(t, c), x);
    DefaultBatchDoes(t, category, c, listed);
    u := ApplyDefaultBatch(t, c.owners, c.owner, category, CreditsAmong(t, listed));
  }

  /** The default stage reaches every open credit, whatever the listing, exactly when the rows without
      source fit in one listing or none of them is a credit. */
  lemma DefaultStageCompleteExactly(t: Table, category: nat, c: Context)
    ensures DefaultStageComplete(t, category, c) <==> |UnsourcedRows(t, c)| <= LIMIT || OpenCredits(t, c) == {}
  {
    var (rows, credits) := (UnsourcedRows(t, c), OpenCredits(t, c));
    DefaultStageDoes(t, category, c);
    if |rows| <= LIMIT || credits == {} {
      forall u | DefaultOutcome(t, Some(category), c, u)
        ensures u == AfterDefault(t, Some(category), c)
      {
        var listed :| Listing(listed, rows)
          && u == ApplyDefaultBatch(t, c.owners, c.owner, category, CreditsAmong(t, listed));
        DefaultBatchDoes(t, category, c, listed);
        if |rows| <= LIMIT {
          WholeListing(listed, rows);
        }
        assert listed * credits == credits;
        SameDefaultDone(t, u, AfterDefault(t, Some(category), c), category, credits);
      }
    } else {
      var x :| x in credits;
      var u := DefaultMissing(t, category, c, x);
      assert AfterDefault(t, Some(category), c)[x].source == ByRule;
    }
  }
}
