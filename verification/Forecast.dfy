/** The balance expected at the end of a budget cycle: today's balance, plus what is still expected to
    come in, minus what is still expected to go out. */
module Forecast {
  import opened Spending

  /** Expected amounts of a whole cycle, by category. */
  type Plan = map<nat, int>

  function AtLeastZero(n: int): int {
    if n >= 0 then n else 0
  }

  function Realised(done: map<nat, nat>, category: nat): nat {
    if category in done then done[category] else 0
  }

  /** What a category still promises; one already exceeded promises nothing more. */
  function Remaining(plan: Plan, done: map<nat, nat>, category: nat): int {
    if category in plan then AtLeastZero(plan[category] - Realised(done, category)) else 0
  }

  datatype ForecastLine = ForecastLine(category: nat, planned: int, realised: nat, remaining: int)

  datatype Projection = Projection(
    projected: int, current: int, incomeLeft: int, expensesLeft: int, lines: seq<ForecastLine>, enoughData: bool)

  // ----- Sums over a set of categories

  ghost function SumOver(keys: set<nat>, f: nat -> int): int {
    if keys == {} then 0
    else
      var k :| k in keys;
      f(k) + SumOver(keys - {k}, f)
  }

  lemma {:induction false} SumTakes(keys: set<nat>, f: nat -> int, k: nat)
    requires k in keys
    ensures SumOver(keys, f) == f(k) + SumOver(keys - {k}, f)
    decreases |keys|
  {
    var j :| j in keys && SumOver(keys, f) == f(j) + SumOver(keys - {j}, f);
    if j != k {
      SumTakes(keys - {j}, f, k);
      SumTakes(keys - {k}, f, j);
      assert keys - {j} - {k} == keys - {k} - {j};
    }
  }

  lemma {:induction false} SumAgrees(keys: set<nat>, f: nat -> int, g: nat -> int)
    requires forall k :: k in keys ==> f(k) == g(k)
    ensures SumOver(keys, f) == SumOver(keys, g)
    decreases |keys|
  {
    if keys != {} {
      var k :| k in keys;
      SumTakes(keys, f, k);
      SumTakes(keys, g, k);
      SumAgrees(keys - {k}, f, g);
    }
  }

  ghost function RemainingBy(plan: Plan, done: map<nat, nat>): nat -> int {
    (c: nat) => Remaining(plan, done, c)
  }

  ghost function TotalRemaining(plan: Plan, done: map<nat, nat>): int {
    SumOver(plan.Keys, RemainingBy(plan, done))
  }

  /** The balance, and what was realised in each category on each side. */
  datatype Books = Books(balance: int, expenses: map<nat, nat>, income: map<nat, nat>)

  function BooksOf(balance: int, expenses: seq<Line>, income: seq<Line>): Books {
    Books(balance, IndexByCategory(expenses), IndexByCategory(income))
  }

  ghost function Projected(b: Books, expensePlan: Plan, incomePlan: Plan): int {
    b.balance + TotalRemaining(incomePlan, b.income) - TotalRemaining(expensePlan, b.expenses)
  }

  // ----- The computation

  /** Each line tells its category's plan, what was realised and what is left. */
  ghost predicate LineOf(line: ForecastLine, plan: Plan, done: map<nat, nat>) {
    && line.category in plan
    && line.planned == plan[line.category]
    && line.realised == Realised(done, line.category)
    && line.remaining == Remaining(plan, done, line.category)
  }

  ghost predicate HasLine(lines: seq<ForecastLine>, category: nat) {
    exists i :: 0 <= i < |lines| && lines[i].category == category
  }

  lemma OneMoreForecastLine(lines: seq<ForecastLine>, line: ForecastLine)
    ensures HasLine(lines + [line], line.category)
    ensures forall c :: HasLine(lines, c) ==> HasLine(lines + [line], c)
  {
    var more := lines + [line];
    assert more[|lines|] == line;
    forall c | HasLine(lines, c)
      ensures HasLine(more, c)
    {
      var i :| 0 <= i < |lines| && lines[i].category == c;
      assert more[i] == lines[i];
    }
  }

  /** One line per planned category, and no other. */
  ghost predicate LinesOf(lines: seq<ForecastLine>, plan: Plan, done: map<nat, nat>) {
    && |lines| == |plan|
    && (forall line :: line in lines ==> LineOf(line, plan, done))
    && (forall c :: c in plan ==> HasLine(lines, c))
  }

  method Accumulate(plan: Plan, done: map<nat, nat>) returns (left: int, lines: seq<ForecastLine>)
    ensures left == TotalRemaining(plan, done)
    ensures LinesOf(lines, plan, done)
  {
    left, lines := 0, [];
    var toRead := plan.Keys;
    ghost var f := RemainingBy(plan, done);
    while toRead != {}
      invariant toRead <= plan.Keys
      invariant left + SumOver(toRead, f) == TotalRemaining(plan, done)
      invariant forall line :: line in lines ==> LineOf(line, plan, done)
      invariant forall c :: c in plan.Keys - toRead ==> HasLine(lines, c)
      invariant |lines| + |toRead| == |plan.Keys|
      decreases |toRead|
    {
      var c :| c in toRead;
      SumTakes(toRead, f, c);
      var realised := Realised(done, c);
      var remaining := AtLeastZero(plan[c] - realised);
      left := left + remaining;
      OneMoreForecastLine(lines, ForecastLine(c, plan[c], realised, remaining));
      lines := lines + [ForecastLine(c, plan[c], realised, remaining)];
      toRead := toRead - {c};
    }
  }

  method Project(
      balance: int, expensePlan: Plan, incomePlan: Plan, expenses: seq<Line>, income: seq<Line>)
    returns (p: Projection)
    ensures p.expensesLeft == TotalRemaining(expensePlan, IndexByCategory(expenses))
    ensures p.incomeLeft == TotalRemaining(incomePlan, IndexByCategory(income))
    ensures p.current == balance
    ensures p.projected == balance + p.incomeLeft - p.expensesLeft
    ensures p.projected == Projected(BooksOf(balance, expenses, income), expensePlan, incomePlan)
    ensures p.enoughData <==> expensePlan != map[] || incomePlan != map[]
    ensures |p.lines| == |expensePlan| + |incomePlan|
    ensures LinesOf(p.lines[..|expensePlan|], expensePlan, IndexByCategory(expenses))
    ensures LinesOf(p.lines[|expensePlan|..], incomePlan, IndexByCategory(income))
  {
    var expensesLeft, expenseLines := Accumulate(expensePlan, IndexByCategory(expenses));
    var incomeLeft, incomeLines := Accumulate(incomePlan, IndexByCategory(income));
    p := Projection(
      balance + incomeLeft - expensesLeft, balance, incomeLeft, expensesLeft, expenseLines + incomeLines,
      expensePlan != map[] || incomePlan != map[]);
    assert p.lines[..|expensePlan|] == expenseLines && p.lines[|expensePlan|..] == incomeLines;
  }
}
