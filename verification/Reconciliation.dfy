/** Reconciliation of an owner's transactions: pair internal transfers, apply every rule, then give
    the remaining credits their default category. The database may list rows in any order. */
module Reconciliation {
  import opened Labels
  import opened Ordering
  import opened Pairing
  import opened PairingLaws
  import opened Rules
  import opened Transactions
  import opened Wrappers

  /** Most rows a listing returns. */
  const LIMIT := 5000

  /** How labels are read: their reduction and the test of a rule. Nothing below depends on it. */
  datatype Reading = Reading(reduce: Label -> Label, fits: Test)

  /** The reading of the program. */
  const PROGRAM := Reading(Counterparty, Matches)

  datatype Context = Context(owners: Owners, owner: nat, reading: Reading)
  {
    predicate Owns(r: Row) {
      Owned(r, owners, owner)
    }
  }

  // ----- Candidates for pairing

  predicate HandFiled(r: Row) {
    r.source == Manual && r.category.Some? && r.category.value != INTERNAL_TRANSFERS
  }

  predicate Pairable(r: Row, c: Context) {
    c.Owns(r) && EffectiveDate(r).Some?
  }

  function MovementOf(id: nat, r: Row, c: Context): Movement
    requires EffectiveDate(r).Some?
  {
    Movement(id, r.account, r.cents, EffectiveDate(r).value, c.reading.reduce(r.words), HandFiled(r))
  }

  ghost function Movements(t: Table, c: Context): set<Movement> {
    set id | id in t && Pairable(t[id], c) :: MovementOf(id, t[id], c)
  }

  ghost function MovementsAmong(t: Table, c: Context, ids: set<nat>): set<Movement> {
    set id | id in t && id in ids && Pairable(t[id], c) :: MovementOf(id, t[id], c)
  }

  lemma OneMoreMovement(ms: seq<Movement>, t: Table, c: Context, ids: set<nat>, id: nat)
    requires Lists(ms, MovementsAmong(t, c, ids))
    requires id in t && id !in ids
    ensures Lists(
      if Pairable(t[id], c) then ms + [MovementOf(id, t[id], c)] else ms, MovementsAmong(t, c, ids + {id}))
  {
    var (before, after) := (MovementsAmong(t, c, ids), MovementsAmong(t, c, ids + {id}));
    if Pairable(t[id], c) {
      var m := MovementOf(id, t[id], c);
      assert forall n :: n in before ==> n.id in ids;
      DistinctAppend(ms, m);
      assert after == before + {m};
    } else {
      assert after == before;
    }
  }

  ghost predicate Lists(ms: seq<Movement>, movements: set<Movement>) {
    && Distinct(ms)
    && forall m :: m in ms <==> m in movements
  }

  ghost predicate UniqueIds(movements: set<Movement>) {
    forall a, b :: a in movements && b in movements && a.id == b.id ==> a == b
  }

  lemma {:induction false} ListingExists(movements: set<Movement>)
    ensures exists ms: seq<Movement> :: Lists(ms, movements)
  {
    if movements == {} {
      assert Lists([], movements);
    } else {
      var m :| m in movements;
      ListingExists(movements - {m});
      var ms: seq<Movement> :| Lists(ms, movements - {m});
      assert Lists(ms + [m], movements);
    }
  }

  lemma ListingHasDistinctIds(ms: seq<Movement>, movements: set<Movement>)
    requires Lists(ms, movements) && UniqueIds(movements)
    ensures DistinctIds(ms)
  {
  }

  /** Identifiers paired as internal transfers, whatever the listing the pairing reads. */
  ghost function PairedIds(movements: set<Movement>): set<nat> {
    ListingExists(movements);
    var ms: seq<Movement> :| Lists(ms, movements);
    Ids(Faces(Paired(ms)))
  }

  lemma PairedIdsOfListing(ms: seq<Movement>, movements: set<Movement>)
    requires Lists(ms, movements) && UniqueIds(movements)
    ensures Ids(Faces(Paired(ms))) == PairedIds(movements)
  {
    ListingExists(movements);
    var ns: seq<Movement> :| Lists(ns, movements) && PairedIds(movements) == Ids(Faces(Paired(ns)));
    ListingHasDistinctIds(ms, movements);
    SameSetSameMultiset(ms, ns);
    PairedIgnoresReadingOrder(ms, ns);
  }

  lemma MovementsHaveUniqueIds(t: Table, c: Context)
    ensures UniqueIds(Movements(t, c))
  {
  }

  // ----- What reconciliation makes of one row

  function PairingRow(r: Row, paired: bool): Row {
    if paired then Marked(Unmarked(r)) else Unmarked(r)
  }

  predicate Open(r: Row) {
    r.category.None? && !r.internal
  }

  function RulesRow(r: Row, rules: seq<Rule>, c: Context): Row {
    if Open(r) && r.source == Uncategorised then
      match FirstMatch(r.words, rules, c.reading.fits)
      case Some(rule) => RuleApplied(r, rule)
      case None => r
    else
      r
  }

  predicate OpenCredit(r: Row) {
    r.source == Uncategorised && !r.internal && r.cents >= 0
  }

  function DefaultRow(r: Row, category: Option<nat>): Row {
    if category.Some? && OpenCredit(r) then Defaulted(r, category.value) else r
  }

  function ReconciledRow(r: Row, paired: bool, rules: seq<Rule>, category: Option<nat>, c: Context): Row {
    DefaultRow(RulesRow(PairingRow(r, paired), rules, c), category)
  }

  ghost function AfterPairing(t: Table, c: Context): Table {
    var paired := PairedIds(Movements(t, c));
    map id | id in t :: if c.Owns(t[id]) then PairingRow(t[id], id in paired) else t[id]
  }

  /** The two updates of the pairing stage make `PairingRow` of each row of the owner. */
  lemma PairingIsResetThenMark(t: Table, c: Context, ids: set<nat>)
    ensures MarkInternal(ResetInternal(t, c.owners, c.owner), c.owners, c.owner, ids)
      == map id | id in t :: if c.Owns(t[id]) then PairingRow(t[id], id in ids) else t[id]
  {
  }

  /** Rows the pairing stage marks: those paired, but for the ones whose mark the reset spares. */
  function NewlyMarked(t: Table, c: Context, ids: set<nat>): set<nat> {
    set id | id in t && id in ids && c.Owns(t[id]) && !Unmarked(t[id]).internal
  }

  ghost function AfterRules(t: Table, rules: seq<Rule>, c: Context): Table {
    map id | id in t :: if c.Owns(t[id]) then RulesRow(t[id], rules, c) else t[id]
  }

  ghost function AfterDefault(t: Table, category: Option<nat>, c: Context): Table {
    map id | id in t :: if c.Owns(t[id]) then DefaultRow(t[id], category) else t[id]
  }

  ghost function Reconciled(t: Table, rules: seq<Rule>, category: Option<nat>, c: Context): Table {
    AfterDefault(AfterRules(AfterPairing(t, c), rules, c), category, c)
  }

  /** Rows the rule stage lists. */
  ghost function OpenRows(t: Table, c: Context): set<nat> {
    set id | id in t && c.Owns(t[id]) && Open(t[id])
  }

  /** Rows the default stage lists. */
  ghost function UnsourcedRows(t: Table, c: Context): set<nat> {
    set id | id in t && c.Owns(t[id]) && t[id].source == Uncategorised && !t[id].internal
  }

  /** Credits without source, the ones the default stage is for. */
  ghost function OpenCredits(t: Table, c: Context): set<nat> {
    set id | id in t && c.Owns(t[id]) && OpenCredit(t[id])
  }

  /** The listings fit in what one query returns. */
  ghost predicate WithinLimit(t: Table, c: Context) {
    |OpenRows(t, c)| <= LIMIT && |UnsourcedRows(t, c)| <= LIMIT
  }

  /** Rows that went from uncategorised to categorised. */
  ghost function Categorised(before: Table, after: Table): set<nat> {
    set id | id in before && id in after && before[id].source == Uncategorised && after[id].source == ByRule
  }

  /** What the rule and default stages may do: categorise rows that were uncategorised. */
  ghost predicate Gentle(before: Table, after: Table) {
    && before.Keys == after.Keys
    && forall id :: id in before ==> GentleRow(before[id], after[id])
  }

  ghost predicate GentleRow(before: Row, after: Row) {
    || after == before
    || (before.source == Uncategorised
        && after == before.(category := after.category, source := ByRule, rule := after.rule)
        && after.category.Some?)
  }

  /** A row categorised on the way stays so, and each is counted once. */
  lemma GentleAddsUp(a: Table, b: Table, c: Table)
    requires Gentle(a, b) && Gentle(b, c)
    ensures Gentle(a, c)
    ensures |Categorised(a, c)| == |Categorised(a, b)| + |Categorised(b, c)|
  {
    assert Categorised(a, c) == Categorised(a, b) + Categorised(b, c);
    assert Categorised(a, b) !! Categorised(b, c);
  }

  lemma SmallerSet(a: set<nat>, b: set<nat>)
    requires a <= b
    ensures |a| <= |b|
  {
    assert b == a + (b - a);
  }

  lemma GentleOpensNothing(a: Table, b: Table, c: Context)
    requires Gentle(a, b)
    ensures OpenRows(b, c) <= OpenRows(a, c) && UnsourcedRows(b, c) <= UnsourcedRows(a, c)
    ensures |OpenRows(b, c)| <= |OpenRows(a, c)| && |UnsourcedRows(b, c)| <= |UnsourcedRows(a, c)|
  {
    SmallerSet(OpenRows(b, c), OpenRows(a, c));
    SmallerSet(UnsourcedRows(b, c), UnsourcedRows(a, c));
  }

  lemma {:induction false} FirstMatchOfOneMore(words: Label, rules: seq<Rule>, rule: Rule, fits: Test)
    ensures FirstMatch(words, rules + [rule], fits) ==
      if FirstMatch(words, rules, fits).Some? then FirstMatch(words, rules, fits)
      else if fits(rule, words) then Some(rule) else None
  {
    if rules == [] {
      assert [rule][1..] == [] && rules + [rule] == [rule];
    } else {
      assert (rules + [rule])[1..] == rules[1..] + [rule];
      FirstMatchOfOneMore(words, rules[1..], rule, fits);
    }
  }

  lemma RulesRowOfOneMore(r: Row, rules: seq<Rule>, rule: Rule, c: Context)
    ensures RulesRow(RulesRow(r, rules, c), [rule], c) == RulesRow(r, rules + [rule], c)
  {
    FirstMatchOfOneMore(r.words, rules, rule, c.reading.fits);
    FirstMatchOfOneMore(r.words, [], rule, c.reading.fits);
    assert [] + [rule] == [rule];
  }

  lemma NoRule(t: Table, c: Context)
    ensures AfterRules(t, [], c) == t
  {
  }

  lemma OneMoreRule(t: Table, rules: seq<Rule>, rule: Rule, c: Context)
    ensures AfterRules(AfterRules(t, rules, c), [rule], c) == AfterRules(t, rules + [rule], c)
  {
    forall id | id in t
      ensures AfterRules(AfterRules(t, rules, c), [rule], c)[id] == AfterRules(t, rules + [rule], c)[id]
    {
      RulesRowOfOneMore(t[id], rules, rule, c);
    }
  }

  /** The batch update on the open rows that match a rule. */
  lemma BatchIsOneRule(t: Table, rule: Rule, ids: set<nat>, c: Context)
    requires rule.owner == c.owner
    requires forall id :: id in ids <==> id in OpenRows(t, c) && c.reading.fits(rule, t[id].words)
    ensures ApplyRuleBatch(t, c.owners, rule, ids) == AfterRules(t, [rule], c)
  {
    forall id | id in t
      ensures ApplyRuleBatch(t, c.owners, rule, ids)[id] == AfterRules(t, [rule], c)[id]
    {
      FirstMatchOfOneMore(t[id].words, [], rule, c.reading.fits);
      assert [] + [rule] == [rule];
    }
  }

  lemma BatchIsDefault(t: Table, category: nat, ids: set<nat>, c: Context)
    requires forall id :: id in ids <==> id in UnsourcedRows(t, c) && t[id].cents >= 0
    ensures ApplyDefaultBatch(t, c.owners, c.owner, category, ids) == AfterDefault(t, Some(category), c)
  {
  }

  /** Rows a batch update changes. */
  function Reached(t: Table, ids: set<nat>, owners: Owners, owner: nat): set<nat> {
    set id | id in t && id in ids && BatchReaches(t[id], owners, owner)
  }

  lemma DefaultBatchIsGentle(t: Table, category: nat, ids: set<nat>, c: Context)
    ensures var u := ApplyDefaultBatch(t, c.owners, c.owner, category, ids);
      && Gentle(t, u)
      && Categorised(t, u) == Reached(t, ids, c.owners, c.owner)
  {
  }

  lemma RuleBatchIsGentle(t: Table, rule: Rule, ids: set<nat>, owners: Owners)
    ensures var u := ApplyRuleBatch(t, owners, rule, ids);
      && Gentle(t, u)
      && Categorised(t, u) == Reached(t, ids, owners, rule.owner)
  {
  }

  lemma StagesAreGentle(t: Table, rules: seq<Rule>, category: Option<nat>, c: Context)
    ensures Gentle(t, AfterRules(t, rules, c)) && Gentle(t, AfterDefault(t, category, c))
  {
  }

  // ----- What a run may do, whatever its listings return

  /** What one listing query may return of the rows it selects: all of them, or as many as the limit. */
  ghost predicate Listing(listed: set<nat>, rows: set<nat>) {
    listed <= rows && |listed| == if |rows| <= LIMIT then |rows| else LIMIT
  }

  function MatchesAmong(t: Table, rule: Rule, c: Context, listed: set<nat>): set<nat> {
    set id | id in listed && id in t && c.reading.fits(rule, t[id].words)
  }

  function CreditsAmong(t: Table, listed: set<nat>): set<nat> {
    set id | id in listed && id in t && t[id].cents >= 0
  }

  ghost predicate RuleOutcome(t: Table, rule: Rule, c: Context, u: Table) {
    exists listed ::
      Listing(listed, OpenRows(t, c)) && u == ApplyRuleBatch(t, c.owners, rule, MatchesAmong(t, rule, c, listed))
  }

  ghost predicate DefaultOutcome(t: Table, category: Option<nat>, c: Context, u: Table) {
    match category
    case None => u == t
    case Some(k) =>
      exists listed ::
        Listing(listed, UnsourcedRows(t, c)) && u == ApplyDefaultBatch(t, c.owners, c.owner, k, CreditsAmong(t, listed))
  }

  ghost predicate RulesOutcome(t: Table, rules: seq<Rule>, c: Context, u: Table)
    decreases |rules|
  {
    if rules == [] then u == t
    else exists m :: RuleOutcome(t, rules[0], c, m) && RulesOutcome(m, rules[1..], c, u)
  }

  /** A table that the whole reconciliation may leave. */
  ghost predicate Outcome(t: Table, rules: seq<Rule>, category: Option<nat>, c: Context, u: Table) {
    exists m :: RulesOutcome(AfterPairing(t, c), rules, c, m) && DefaultOutcome(m, category, c, u)
  }

  lemma {:induction false} OneMoreOutcome(t: Table, rules: seq<Rule>, rule: Rule, c: Context, m: Table, u: Table)
    requires RulesOutcome(t, rules, c, m) && RuleOutcome(m, rule, c, u)
    ensures RulesOutcome(t, rules + [rule], c, u)
    decreases |rules|
  {
    var all := rules + [rule];
    if rules == [] {
      assert all[0] == rule && all[1..] == [];
      assert RulesOutcome(u, all[1..], c, u);
    } else {
      var n :| RuleOutcome(t, rules[0], c, n) && RulesOutcome(n, rules[1..], c, m);
      OneMoreOutcome(n, rules[1..], rule, c, m, u);
      assert all[0] == rules[0] && all[1..] == rules[1..] + [rule];
    }
  }

  lemma {:induction false} DistinctSize(ids: seq<nat>)
    requires Distinct(ids)
    ensures |Ids(ids)| == |ids|
  {
    if ids == [] {
      assert Ids(ids) == {};
    } else {
      var (init, last) := (ids[..|ids| - 1], ids[|ids| - 1]);
      assert ids == init + [last];
      DistinctSize(init);
      assert last !in Ids(init) && Ids(ids) == Ids(init) + {last};
    }
  }

  /** The first rows of any listing without repetition are what a limited query may return. */
  lemma ListingOfOrder(order: seq<nat>, rows: set<nat>, listed: seq<nat>)
    requires Distinct(order) && forall id :: id in order <==> id in rows
    requires listed == if |order| > LIMIT then order[..LIMIT] else order
    ensures Listing(Ids(listed), rows)
  {
    DistinctSize(order);
    DistinctSize(listed);
    assert Ids(order) == rows;
    assert forall id :: id in listed ==> id in order;
  }

  /** What the rule stage has done once it has applied `rules`, and counted: it categorised uncategorised
      rows, each once, as some listings allow; within the limit each open row has its first match. */
  ghost predicate RulesApplied(start: Table, rules: seq<Rule>, c: Context, u: Table, categorised: nat) {
    && Gentle(start, u)
    && categorised == |Categorised(start, u)| <= LIMIT * |rules|
    && RulesOutcome(start, rules, c, u)
    && (|OpenRows(start, c)| <= LIMIT ==> u == AfterRules(start, rules, c))
  }

  lemma OneMoreTaken(rules: seq<Rule>, k: nat)
    requires k < |rules|
    ensures rules[..k + 1] == rules[..k] + [rules[k]]
  {
  }

  lemma NoStage(t: Table, c: Context)
    ensures RulesApplied(t, [], c, t, 0)
  {
    assert Categorised(t, t) == {};
    NoRule(t, c);
  }

  lemma OneMoreStage(
      start: Table, rules: seq<Rule>, rule: Rule, c: Context, before: Table, categorised: nat, after: Table, touched: nat)
    requires RulesApplied(start, rules, c, before, categorised)
    requires Gentle(before, after) && touched == |Categorised(before, after)| <= LIMIT
    requires RuleOutcome(before, rule, c, after)
    requires |OpenRows(before, c)| <= LIMIT ==> after == AfterRules(before, [rule], c)
    ensures RulesApplied(start, rules + [rule], c, after, categorised + touched)
  {
    GentleOpensNothing(start, before, c);
    GentleAddsUp(start, before, after);
    OneMoreRule(start, rules, rule, c);
    OneMoreOutcome(start, rules, rule, c, before, after);
  }

  datatype FilingOutcome = FiledByHand(row: Row) | TransactionNotFound | CategoryNotFound

  // ----- The store

  class Store {
    const owners: Owners
    const reading: Reading
    var rows: Table

    constructor (owners: Owners, reading: Reading)
      ensures this.owners == owners && this.reading == reading && rows == map[]
    {
      this.owners := owners;
      this.reading := reading;
      rows := map[];
    }

    function In(owner: nat): Context {
      Context(owners, owner, reading)
    }

    /** The database lists rows in an order of its choice. */
    method AnyOrder(ids: set<nat>) returns (order: seq<nat>)
      ensures Distinct(order)
      ensures forall id :: id in order <==> id in ids
      ensures |order| == |ids|
    {
      order := [];
      var left := ids;
      while left != {}
        invariant left <= ids
        invariant Distinct(order)
        invariant forall id :: id in order <==> id in ids - left
        invariant |order| + |left| == |ids|
        decreases |left|
      {
        var id :| id in left;
        DistinctAppend(order, id);
        order := order + [id];
        left := left - {id};
      }
    }

    method ListMovements(owner: nat) returns (ms: seq<Movement>)
      ensures Lists(ms, Movements(rows, In(owner)))
    {
      var c := In(owner);
      var ids := set id | id in rows && c.Owns(rows[id]);
      var order := AnyOrder(ids);
      ms := [];
      ghost var read: set<nat> := {};
      for i := 0 to |order|
        invariant read == set id | id in order[..i]
        invariant Lists(ms, MovementsAmong(rows, c, read))
      {
        var id := order[i];
        assert id in order;
        OneMoreMovement(ms, rows, c, read, id);
        if EffectiveDate(rows[id]).Some? {
          ms := ms + [MovementOf(id, rows[id], c)];
        }
        assert order[..i + 1] == order[..i] + [id];
        read := read + {id};
      }
      assert order[..|order|] == order;
      assert read == ids;
      assert MovementsAmong(rows, c, ids) == Movements(rows, c);
    }

    /** Pairs the owner's internal transfers again. The answer counts every row marked since the reset,
        so a row marked before and paired again counts anew. */
    method RecomputeTransfers(owner: nat) returns (marked: nat)
      modifies this
      ensures rows == AfterPairing(old(rows), In(owner))
      ensures marked == |NewlyMarked(old(rows), In(owner), PairedIds(Movements(old(rows), In(owner))))|
    {
      var c := In(owner);
      var ms := ListMovements(owner);
      var paired := DetectInternalTransfers(ms);
      MovementsHaveUniqueIds(rows, c);
      PairedIdsOfListing(ms, Movements(rows, c));
      var ids := set id | id in paired;
      assert ids == Ids(Faces(Paired(ms)));
      marked := MarkPaired(owner, ids);
    }

    method MarkPaired(owner: nat, ids: set<nat>) returns (marked: nat)
      modifies this
      ensures rows == map id | id in old(rows) ::
        if In(owner).Owns(old(rows)[id]) then PairingRow(old(rows)[id], id in ids) else old(rows)[id]
      ensures marked == |NewlyMarked(old(rows), In(owner), ids)|
    {
      PairingIsResetThenMark(rows, In(owner), ids);
      rows := ResetInternal(rows, owners, owner);
      var targets := set id | id in rows && id in ids && Owned(rows[id], owners, owner) && !rows[id].internal;
      assert targets == NewlyMarked(old(rows), In(owner), ids);
      marked := |targets|;
      rows := MarkInternal(rows, owners, owner, ids);
    }

    /** Applies a rule to the open rows that one listing returns. */
    method ApplyRuleRetroactively(rule: Rule) returns (touched: nat)
      modifies this
      ensures Gentle(old(rows), rows)
      ensures touched == |Categorised(old(rows), rows)| <= LIMIT
      ensures RuleOutcome(old(rows), rule, In(rule.owner), rows)
      ensures |OpenRows(old(rows), In(rule.owner))| <= LIMIT ==>
        rows == AfterRules(old(rows), [rule], In(rule.owner))
    {
      var c := In(rule.owner);
      var open := set id | id in rows && c.Owns(rows[id]) && Open(rows[id]);
      var order := AnyOrder(open);
      var listed := order;
      if |listed| > LIMIT {
        listed := listed[..LIMIT];
      }
      assert forall id :: id in listed ==> id in open;
      ListingOfOrder(order, open, listed);
      var targets := set id | id in listed && reading.fits(rule, rows[id].words);
      assert targets == MatchesAmong(rows, rule, c, Ids(listed));
      if |open| <= LIMIT {
        BatchIsOneRule(rows, rule, targets, c);
      }
      FewTargets(listed, targets);
      var reached := Reached(rows, targets, owners, rule.owner);
      SmallerSet(reached, targets);
      touched := |reached|;
      RuleBatchIsGentle(rows, rule, targets, owners);
      rows := ApplyRuleBatch(rows, owners, rule, targets);
    }

    /** Gives their default category to the credits left uncategorised. */
    method DefaultCredits(owner: nat, category: Option<nat>) returns (touched: nat)
      modifies this
      ensures Gentle(old(rows), rows)
      ensures touched == |Categorised(old(rows), rows)| <= LIMIT
      ensures DefaultOutcome(old(rows), category, In(owner), rows)
      ensures |UnsourcedRows(old(rows), In(owner))| <= LIMIT ==>
        rows == AfterDefault(old(rows), category, In(owner))
    {
      var c := In(owner);
      if category.None? {
        assert Categorised(rows, rows) == {};
        return 0;
      }
      var unsourced := set id | id in rows && c.Owns(rows[id]) && rows[id].source == Uncategorised && !rows[id].internal;
      var order := AnyOrder(unsourced);
      var listed := order;
      if |listed| > LIMIT {
        listed := listed[..LIMIT];
      }
      assert forall id :: id in listed ==> id in unsourced;
      ListingOfOrder(order, unsourced, listed);
      var credits: set<nat> := set id | id in listed && rows[id].cents >= 0;
      assert credits == CreditsAmong(rows, Ids(listed));
      FewTargets(listed, credits);
      var reached := Reached(rows, credits, owners, owner);
      SmallerSet(reached, credits);
      touched := |reached|;
      DefaultBatchIsGentle(rows, category.value, credits, c);
      if |unsourced| <= LIMIT {
        BatchIsDefault(rows, category.value, credits, c);
      }
      rows := ApplyDefaultBatch(rows, owners, owner, category.value, credits);
    }

    /** Applies every rule, one after another. */
    method ApplyAllRules(owner: nat, rules: seq<Rule>) returns (categorised: nat)
      requires forall rule :: rule in rules ==> rule.owner == owner
      modifies this
      ensures RulesApplied(old(rows), rules, In(owner), rows, categorised)
    {
      var c := In(owner);
      ghost var start := rows;
      categorised := 0;
      NoStage(start, c);
      ghost var done: seq<Rule> := [];
      for k := 0 to |rules|
        invariant done == rules[..k]
        invariant RulesApplied(start, done, c, rows, categorised)
      {
        ghost var before := rows;
        var touched := ApplyRuleRetroactively(rules[k]);
        OneMoreStage(start, done, rules[k], c, before, categorised, rows, touched);
        OneMoreTaken(rules, k);
        done := done + [rules[k]];
        categorised := categorised + touched;
      }
      assert rules[..|rules|] == rules;
    }

    /** The whole reconciliation; answers how many rows it categorised. */
    method Reconcile(owner: nat, rules: seq<Rule>, category: Option<nat>) returns (categorised: nat)
      requires forall rule :: rule in rules ==> rule.owner == owner
      modifies this
      ensures Gentle(AfterPairing(old(rows), In(owner)), rows)
      ensures categorised == |Categorised(AfterPairing(old(rows), In(owner)), rows)| <= LIMIT * (|rules| + 1)
      ensures Outcome(old(rows), rules, category, In(owner), rows)
      ensures WithinLimit(AfterPairing(old(rows), In(owner)), In(owner)) ==>
        rows == Reconciled(old(rows), rules, category, In(owner))
    {
      var c := In(owner);
      var marked := RecomputeTransfers(owner);
      ghost var paired := rows;
      categorised := ApplyAllRules(owner, rules);
      ghost var ruled := rows;
      GentleOpensNothing(paired, ruled, c);
      var touched := DefaultCredits(owner, category);
      GentleAddsUp(paired, ruled, rows);
      categorised := categorised + touched;
    }

    /** Files a transaction by hand; `accessible` tells whether the owner may use the category. */
    method Categorise(owner: nat, account: nat, id: nat, category: nat, accessible: bool)
      returns (outcome: FilingOutcome)
      modifies this
      ensures outcome == CategoryNotFound <==> !accessible
      ensures outcome == TransactionNotFound <==> accessible && !CanFile(old(rows), owners, owner, account, id)
      ensures outcome.FiledByHand? ==> id in rows && outcome.row == rows[id] == Filed(old(rows)[id], category)
      ensures rows == if accessible then File(old(rows), owners, owner, account, id, category) else old(rows)
    {
      if !accessible {
        return CategoryNotFound;
      }
      if !CanFile(rows, owners, owner, account, id) {
        return TransactionNotFound;
      }
      rows := File(rows, owners, owner, account, id, category);
      outcome := FilingOutcome.FiledByHand(rows[id]);
    }

    /** Stores a delivery; a new row gets the best rule of its owner. */
    method Save(d: Delivery, rules: seq<Rule>) returns (outcome: InsertOutcome)
      requires d.newId !in rows && d.account in owners
      modifies this
      ensures outcome == OutcomeOfUpsert(old(rows), d)
      ensures outcome.Duplicate? ==> rows == Upsert(old(rows), d)
      ensures outcome.Inserted? ==> rows == old(rows)[d.newId := SavedRow(d, rules, reading.fits)]
    {
      outcome := OutcomeOfUpsert(rows, d);
      rows := Upsert(rows, d);
      if outcome.Inserted? {
        var choice := Select(d.words, rules, reading.fits);
        if choice.Some? {
          rows := ApplyRule(rows, owners, owners[d.account], d.newId, choice.value);
        }
      }
    }
  }

  lemma FewTargets(listed: seq<nat>, targets: set<nat>)
    requires forall id :: id in targets ==> id in listed
    ensures |targets| <= |listed|
  {
    if listed == [] {
      assert targets == {};
    } else {
      var init := listed[..|listed| - 1];
      assert listed == init + [listed[|listed| - 1]];
      FewTargets(init, targets - {listed[|listed| - 1]});
    }
  }

  function SavedRow(d: Delivery, rules: seq<Rule>, fits: Test): Row {
    match Select(d.words, rules, fits)
    case Some(rule) => RuleApplied(NewRow(d), rule)
    case None => NewRow(d)
  }
}
