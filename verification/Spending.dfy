/** What was spent or received over a budget cycle, per category. Internal transfers do not count. */
module Spending {
  import opened Cycles
  import opened Transactions
  import opened Wrappers

  datatype Direction = Debit | Credit

  predicate Retains(direction: Direction, cents: int) {
    match direction
    case Debit => cents < 0
    case Credit => cents > 0
  }

  datatype Query = Query(from: int, to: int, direction: Direction)

  /** The rows the query selects and the direction retains. */
  predicate Counts(r: Row, q: Query) {
    && !r.internal
    && EffectiveDate(r).Some? && q.from <= EffectiveDate(r).value < q.to
    && Retains(q.direction, r.cents)
  }

  function Amount(r: Row): nat {
    if r.cents < 0 then -r.cents else r.cents
  }

  /** Total of the counted rows whose category is in `categories`. */
  ghost function SpentAmong(rows: seq<Row>, q: Query, categories: iset<Option<nat>>): nat {
    if rows == [] then 0
    else
      var r := rows[|rows| - 1];
      SpentAmong(rows[..|rows| - 1], q, categories)
      + if Counts(r, q) && r.category in categories then Amount(r) else 0
  }

  ghost function Spent(rows: seq<Row>, q: Query, category: Option<nat>): nat {
    SpentAmong(rows, q, iset{category})
  }

  ghost function TotalSpent(rows: seq<Row>, q: Query): nat {
    if rows == [] then 0
    else TotalSpent(rows[..|rows| - 1], q) + if Counts(rows[|rows| - 1], q) then Amount(rows[|rows| - 1]) else 0
  }

  ghost predicate Seen(rows: seq<Row>, q: Query, category: Option<nat>) {
    exists i :: 0 <= i < |rows| && Counts(rows[i], q) && rows[i].category == category
  }

  /** `totals` holds the categories seen, each with what was spent in it. */
  ghost predicate TotalsOf(totals: map<Option<nat>, nat>, rows: seq<Row>, q: Query) {
    forall c :: if c in totals then Seen(rows, q, c) && totals[c] == Spent(rows, q, c) else !Seen(rows, q, c)
  }

  lemma {:induction false} UnseenIsNothing(rows: seq<Row>, q: Query, category: Option<nat>)
    requires !Seen(rows, q, category)
    ensures Spent(rows, q, category) == 0
  {
    if rows != [] {
      var (init, r) := (rows[..|rows| - 1], rows[|rows| - 1]);
      assert rows[|rows| - 1] == r;
      assert forall i :: 0 <= i < |init| ==> init[i] == rows[i];
      UnseenIsNothing(init, q, category);
    }
  }

  lemma OneMoreRow(rows: seq<Row>, r: Row, q: Query, categories: iset<Option<nat>>)
    ensures SpentAmong(rows + [r], q, categories) == SpentAmong(rows, q, categories)
      + if Counts(r, q) && r.category in categories then Amount(r) else 0
    ensures forall c :: Seen(rows + [r], q, c) <==> Seen(rows, q, c) || (Counts(r, q) && r.category == c)
  {
    var all := rows + [r];
    assert all[..|rows|] == rows && all[|rows|] == r;
    forall c
      ensures Seen(all, q, c) <==> Seen(rows, q, c) || (Counts(r, q) && r.category == c)
    {
      if Seen(rows, q, c) {
        var i :| 0 <= i < |rows| && Counts(rows[i], q) && rows[i].category == c;
        assert all[i] == rows[i];
      }
    }
  }

  lemma OneMoreTotal(totals: map<Option<nat>, nat>, rows: seq<Row>, r: Row, q: Query)
    requires TotalsOf(totals, rows, q)
    ensures TotalsOf(
      if Counts(r, q)
      then totals[r.category := (if r.category in totals then totals[r.category] else 0) + Amount(r)]
      else totals,
      rows + [r], q)
  {
    forall c
      ensures Spent(rows + [r], q, c) == Spent(rows, q, c) + if Counts(r, q) && r.category == c then Amount(r) else 0
      ensures Seen(rows + [r], q, c) <==> Seen(rows, q, c) || (Counts(r, q) && r.category == c)
      ensures !Seen(rows, q, c) ==> Spent(rows, q, c) == 0
    {
      OneMoreRow(rows, r, q, iset{c});
      if !Seen(rows, q, c) {
        UnseenIsNothing(rows, q, c);
      }
    }
  }

  method AmountsByCategory(rows: seq<Row>, q: Query) returns (totals: map<Option<nat>, nat>)
    ensures TotalsOf(totals, rows, q)
  {
    totals := map[];
    for i := 0 to |rows|
      invariant TotalsOf(totals, rows[..i], q)
    {
      var r := rows[i];
      OneMoreTotal(totals, rows[..i], r, q);
      assert rows[..i + 1] == rows[..i] + [r];
      if Counts(r, q) {
        totals := totals[r.category := (if r.category in totals then totals[r.category] else 0) + Amount(r)];
      }
    }
    assert rows[..|rows|] == rows;
  }

  // ----- Lines

  datatype Line = Line(category: Option<nat>, cents: nat)

  datatype Distribution = Distribution(total: nat, lines: seq<Line>)

  function SumOfLines(lines: seq<Line>): nat {
    if lines == [] then 0 else SumOfLines(lines[..|lines| - 1]) + lines[|lines| - 1].cents
  }

  /** Amounts by category; lines without category are ignored, the last line of a category wins. */
  function IndexByCategory(lines: seq<Line>): map<nat, nat> {
    if lines == [] then map[]
    else
      var (init, last) := (IndexByCategory(lines[..|lines| - 1]), lines[|lines| - 1]);
      if last.category.Some? then init[last.category.value := last.cents] else init
  }

  /** The category shown for a total: one the owner no longer has is shown as none. */
  function Shown(category: Option<nat>, known: set<nat>): Option<nat> {
    if category.Some? && category.value in known then category else None
  }

  /** The index of the lines written for the categories of `done`. */
  ghost predicate IndexOf(
      index: map<nat, nat>, rows: seq<Row>, q: Query, known: set<nat>, done: iset<Option<nat>>) {
    forall c :: if c in index then c in known && Some(c) in done && index[c] == Spent(rows, q, Some(c))
                else !(c in known && Some(c) in done)
  }

  lemma {:induction false} OneMoreCategory(rows: seq<Row>, q: Query, done: iset<Option<nat>>, category: Option<nat>)
    requires category !in done
    ensures SpentAmong(rows, q, done + iset{category}) == SpentAmong(rows, q, done) + Spent(rows, q, category)
  {
    if rows != [] {
      OneMoreCategory(rows[..|rows| - 1], q, done, category);
    }
  }

  lemma {:induction false} AllCategories(rows: seq<Row>, q: Query, done: iset<Option<nat>>)
    requires forall c :: Seen(rows, q, c) ==> c in done
    ensures SpentAmong(rows, q, done) == TotalSpent(rows, q)
  {
    if rows != [] {
      var (init, r) := (rows[..|rows| - 1], rows[|rows| - 1]);
      assert forall i :: 0 <= i < |init| ==> init[i] == rows[i];
      forall c | Seen(init, q, c)
        ensures c in done
      {
        var i :| 0 <= i < |init| && Counts(init[i], q) && init[i].category == c;
        assert Counts(rows[i], q) && rows[i].category == c;
      }
      AllCategories(init, q, done);
      if Counts(r, q) {
        assert Seen(rows, q, r.category);
      }
    }
  }

  lemma OneMoreLine(lines: seq<Line>, line: Line)
    ensures SumOfLines(lines + [line]) == SumOfLines(lines) + line.cents
    ensures IndexByCategory(lines + [line]) ==
      if line.category.Some? then IndexByCategory(lines)[line.category.value := line.cents] else IndexByCategory(lines)
  {
    assert (lines + [line])[..|lines|] == lines;
  }

  /** The lines give, for each category the owner knows, what the rows of the query spent in it. */
  ghost predicate Distributes(lines: seq<Line>, rows: seq<Row>, q: Query, known: set<nat>) {
    forall c :: if c in known && Seen(rows, q, Some(c))
                then c in IndexByCategory(lines) && IndexByCategory(lines)[c] == Spent(rows, q, Some(c))
                else c !in IndexByCategory(lines)
  }

  /** One line per category seen; the total is their sum, and what an index of the lines gives for a
      category the owner knows is exactly what was spent in it. */
  method Distribute(rows: seq<Row>, q: Query, known: set<nat>) returns (d: Distribution)
    ensures d.total == TotalSpent(rows, q) == SumOfLines(d.lines)
    ensures Distributes(d.lines, rows, q, known)
  {
    var totals := AmountsByCategory(rows, q);
    var left := totals.Keys;
    ghost var done: iset<Option<nat>> := iset{};
    var total: nat, lines := 0, [];
    NothingAmongNone(rows, q);
    while left != {}
      invariant left <= totals.Keys
      invariant forall c :: c in done <==> c in totals && c !in left
      invariant total == SpentAmong(rows, q, done) == SumOfLines(lines)
      invariant IndexOf(IndexByCategory(lines), rows, q, known, done)
      decreases |left|
    {
      var c :| c in left;
      OneMoreCategory(rows, q, done, c);
      OneMoreLine(lines, Line(Shown(c, known), totals[c]));
      total := total + totals[c];
      lines := lines + [Line(Shown(c, known), totals[c])];
      left, done := left - {c}, done + iset{c};
    }
    AllCategories(rows, q, done);
    d := Distribution(total, lines);
  }

  lemma {:induction false} NothingAmongNone(rows: seq<Row>, q: Query)
    ensures SpentAmong(rows, q, iset{}) == 0
  {
    if rows != [] {
      NothingAmongNone(rows[..|rows| - 1], q);
    }
  }

  // ----- Cycles

  function CycleQuery(c: Cycle, direction: Direction): Query
    requires 1 <= Start(c).month && 1 <= EndExcluded(c).month
  {
    Query(DayNumber(Start(c)), DayNumber(EndExcluded(c)), direction)
  }
}
