/** Recording an expected operation does not move the projected balance; only what goes beyond the plan
    does. */
module ForecastLaws {
  import opened Forecast
  import opened Spending
  import opened Transactions
  import opened Wrappers

  datatype Operation = Expense(category: nat, cents: nat) | Income(category: nat, cents: nat)

  function Added(done: map<nat, nat>, category: nat, cents: nat): map<nat, nat> {
    done[category := Realised(done, category) + cents]
  }

  /** An operation moves the balance and the amount realised in its category. */
  function Record(b: Books, op: Operation): Books {
    match op
    case Expense(c, x) => b.(balance := b.balance - x, expenses := Added(b.expenses, c, x))
    case Income(c, x) => b.(balance := b.balance + x, income := Added(b.income, c, x))
  }

  function RecordAll(b: Books, ops: seq<Operation>): Books {
    if ops == [] then b else Record(RecordAll(b, ops[..|ops| - 1]), ops[|ops| - 1])
  }

  /** The part of an amount beyond what its category had left. */
  function Excess(plan: Plan, done: map<nat, nat>, category: nat, cents: nat): int {
    AtLeastZero(cents - Remaining(plan, done, category))
  }

  lemma RemainingAfter(plan: Plan, done: map<nat, nat>, category: nat, cents: nat)
    ensures TotalRemaining(plan, Added(done, category, cents))
         == TotalRemaining(plan, done) - (cents - Excess(plan, done, category, cents))
  {
    var (f, g) := (RemainingBy(plan, done), RemainingBy(plan, Added(done, category, cents)));
    if category in plan {
      SumTakes(plan.Keys, f, category);
      SumTakes(plan.Keys, g, category);
      SumAgrees(plan.Keys - {category}, f, g);
    } else {
      SumAgrees(plan.Keys, f, g);
    }
  }

  /** How far an operation moves the projection: down by the excess of an expense, up by that of an
      income. */
  function Drift(b: Books, op: Operation, expensePlan: Plan, incomePlan: Plan): int {
    match op
    case Expense(c, x) => -Excess(expensePlan, b.expenses, c, x)
    case Income(c, x) => Excess(incomePlan, b.income, c, x)
  }

  lemma OperationMovesByExcess(b: Books, op: Operation, expensePlan: Plan, incomePlan: Plan)
    ensures Projected(Record(b, op), expensePlan, incomePlan)
         == Projected(b, expensePlan, incomePlan) + Drift(b, op, expensePlan, incomePlan)
  {
    match op
    case Expense(c, x) => RemainingAfter(expensePlan, b.expenses, c, x);
    case Income(c, x) => RemainingAfter(incomePlan, b.income, c, x);
  }

  ghost function TotalDrift(b: Books, ops: seq<Operation>, expensePlan: Plan, incomePlan: Plan): int {
    if ops == [] then 0
    else
      var init := ops[..|ops| - 1];
      TotalDrift(b, init, expensePlan, incomePlan)
      + Drift(RecordAll(b, init), ops[|ops| - 1], expensePlan, incomePlan)
  }

  /** Over any sequence of operations the projection moves only by what went beyond the plan. */
  lemma {:induction false} ProjectionIsConserved(
      b: Books, ops: seq<Operation>, expensePlan: Plan, incomePlan: Plan)
    ensures Projected(RecordAll(b, ops), expensePlan, incomePlan)
         == Projected(b, expensePlan, incomePlan) + TotalDrift(b, ops, expensePlan, incomePlan)
  {
    if ops != [] {
      var init := ops[..|ops| - 1];
      ProjectionIsConserved(b, init, expensePlan, incomePlan);
      OperationMovesByExcess(RecordAll(b, init), ops[|ops| - 1], expensePlan, incomePlan);
    }
  }

  // ----- Operations within the plan

  function RecordedIn(ops: seq<Operation>, category: nat, expense: bool): nat {
    if ops == [] then 0
    else
      var last := ops[|ops| - 1];
      RecordedIn(ops[..|ops| - 1], category, expense)
      + if last.category == category && last.Expense? == expense then last.cents else 0
  }

  lemma {:induction false} RealisedAfter(b: Books, ops: seq<Operation>, category: nat)
    ensures Realised(RecordAll(b, ops).expenses, category)
         == Realised(b.expenses, category) + RecordedIn(ops, category, true)
    ensures Realised(RecordAll(b, ops).income, category)
         == Realised(b.income, category) + RecordedIn(ops, category, false)
  {
    if ops != [] {
      RealisedAfter(b, ops[..|ops| - 1], category);
    }
  }

  lemma NoDrift(b: Books, ops: seq<Operation>, op: Operation, expensePlan: Plan, incomePlan: Plan)
    requires op.Expense? ==> RecordedIn(ops, op.category, true) + op.cents <= Remaining(expensePlan, b.expenses, op.category)
    requires op.Income? ==> RecordedIn(ops, op.category, false) + op.cents <= Remaining(incomePlan, b.income, op.category)
    ensures Drift(RecordAll(b, ops), op, expensePlan, incomePlan) == 0
  {
    RealisedAfter(b, ops, op.category);
  }

  /** When what is recorded in each category stays within what that category had left, the projected
      balance does not move at all. */
  lemma {:induction false} WithinPlanNothingMoves(b: Books, ops: seq<Operation>, expensePlan: Plan, incomePlan: Plan)
    requires forall c :: RecordedIn(ops, c, true) <= Remaining(expensePlan, b.expenses, c)
    requires forall c :: RecordedIn(ops, c, false) <= Remaining(incomePlan, b.income, c)
    ensures Projected(RecordAll(b, ops), expensePlan, incomePlan) == Projected(b, expensePlan, incomePlan)
  {
    if ops != [] {
      var (init, last) := (ops[..|ops| - 1], ops[|ops| - 1]);
      forall c
        ensures RecordedIn(init, c, true) <= Remaining(expensePlan, b.expenses, c)
        ensures RecordedIn(init, c, false) <= Remaining(incomePlan, b.income, c)
      {
        assert RecordedIn(init, c, true) <= RecordedIn(ops, c, true);
        assert RecordedIn(init, c, false) <= RecordedIn(ops, c, false);
      }
      WithinPlanNothingMoves(b, init, expensePlan, incomePlan);
      OperationMovesByExcess(RecordAll(b, init), last, expensePlan, incomePlan);
      assert RecordedIn(ops, last.category, last.Expense?)
          == RecordedIn(init, last.category, last.Expense?) + last.cents;
      NoDrift(b, init, last, expensePlan, incomePlan);
    }
  }

  // ----- A row of the cycle is an operation

  /** What the distributions of a cycle give for its rows, on both sides. */
  ghost predicate Tells(
      expenses: seq<Line>, income: seq<Line>, rows: seq<Row>, from: int, to: int, known: set<nat>)
  {
    && Distributes(expenses, rows, Query(from, to, Debit), known)
    && Distributes(income, rows, Query(from, to, Credit), known)
  }

  predicate InKnownCategory(r: Row, known: set<nat>) {
    r.category.Some? && r.category.value in known
  }

  lemma IndexOfOneMoreRow(rows: seq<Row>, r: Row, q: Query, known: set<nat>, before: seq<Line>, after: seq<Line>)
    requires Distributes(before, rows, q, known) && Distributes(after, rows + [r], q, known)
    ensures IndexByCategory(after) ==
      if Counts(r, q) && InKnownCategory(r, known)
      then Added(IndexByCategory(before), r.category.value, Amount(r)) else IndexByCategory(before)
  {
    var (i, j) := (IndexByCategory(before), IndexByCategory(after));
    forall c
      ensures c in j <==> c in i || (Counts(r, q) && InKnownCategory(r, known) && r.category.value == c)
      ensures c in j ==> j[c] == Realised(i, c) + if Counts(r, q) && r.category == Some(c) then Amount(r) else 0
    {
      CategoryOfOneMoreRow(rows, r, q, known, i, j, c);
    }
    AddedOrSame(i, j, r, Counts(r, q), known);
  }

  lemma AddedOrSame(i: map<nat, nat>, j: map<nat, nat>, r: Row, counted: bool, known: set<nat>)
    requires forall c :: c in i ==> c in known
    requires forall c :: c in j <==> c in i || (counted && InKnownCategory(r, known) && r.category.value == c)
    requires forall c :: c in j ==> j[c] == Realised(i, c) + if counted && r.category == Some(c) then Amount(r) else 0
    ensures j == if counted && InKnownCategory(r, known) then Added(i, r.category.value, Amount(r)) else i
  {
    if counted && InKnownCategory(r, known) {
      IsAdded(i, j, r.category.value, Amount(r));
    } else {
      assert forall c :: c in j <==> c in i;
      assert j == i;
    }
  }

  lemma IsAdded(i: map<nat, nat>, j: map<nat, nat>, category: nat, cents: nat)
    requires forall c :: c in j <==> c in i || c == category
    requires forall c :: c in j ==> j[c] == Realised(i, c) + if c == category then cents else 0
    ensures j == Added(i, category, cents)
  {
  }

  /** The index tells what the rows spent in a category. */
  ghost predicate TellsOf(index: map<nat, nat>, rows: seq<Row>, q: Query, known: set<nat>, c: nat) {
    if c in known && Seen(rows, q, Some(c)) then c in index && index[c] == Spent(rows, q, Some(c)) else c !in index
  }

  lemma CategoryOfOneMoreRow(
      rows: seq<Row>, r: Row, q: Query, known: set<nat>, i: map<nat, nat>, j: map<nat, nat>, c: nat)
    requires TellsOf(i, rows, q, known, c) && TellsOf(j, rows + [r], q, known, c)
    ensures c in j <==> c in i || (Counts(r, q) && InKnownCategory(r, known) && r.category.value == c)
    ensures c in j ==> j[c] == Realised(i, c) + if Counts(r, q) && r.category == Some(c) then Amount(r) else 0
  {
    OneMoreRow(rows, r, q, iset{Some(c)});
    if !Seen(rows, q, Some(c)) {
      UnseenIsNothing(rows, q, Some(c));
    }
  }

  function OperationOf(r: Row): Operation
    requires r.category.Some?
  {
    if r.cents < 0 then Expense(r.category.value, Amount(r)) else Income(r.category.value, Amount(r))
  }

  /** A row of the cycle, counted on one side, is recorded in the books; without a known category it
      moves the balance only. */
  lemma RowIsAnOperation(
      rows: seq<Row>, r: Row, from: int, to: int, known: set<nat>, balance: int,
      expenses: seq<Line>, income: seq<Line>, moreExpenses: seq<Line>, moreIncome: seq<Line>)
    requires Tells(expenses, income, rows, from, to, known)
    requires Tells(moreExpenses, moreIncome, rows + [r], from, to, known)
    requires Counts(r, Query(from, to, Debit)) || Counts(r, Query(from, to, Credit))
    ensures var b := BooksOf(balance, expenses, income);
      BooksOf(balance + r.cents, moreExpenses, moreIncome) ==
        if InKnownCategory(r, known) then Record(b, OperationOf(r)) else b.(balance := b.balance + r.cents)
  {
    IndexOfOneMoreRow(rows, r, Query(from, to, Debit), known, expenses, moreExpenses);
    IndexOfOneMoreRow(rows, r, Query(from, to, Credit), known, income, moreIncome);
  }

  /** A row that enters the cycle and the balance moves the projection by what goes beyond what its
      category had left, or by its whole amount without a known category. */
  lemma RowMovesProjectionByExcess(
      rows: seq<Row>, r: Row, from: int, to: int, known: set<nat>, balance: int,
      expenses: seq<Line>, income: seq<Line>, moreExpenses: seq<Line>, moreIncome: seq<Line>,
      expensePlan: Plan, incomePlan: Plan)
    requires Tells(expenses, income, rows, from, to, known)
    requires Tells(moreExpenses, moreIncome, rows + [r], from, to, known)
    requires Counts(r, Query(from, to, Debit)) || Counts(r, Query(from, to, Credit))
    ensures var b := BooksOf(balance, expenses, income);
      Projected(BooksOf(balance + r.cents, moreExpenses, moreIncome), expensePlan, incomePlan)
      == Projected(b, expensePlan, incomePlan)
         + if InKnownCategory(r, known) then Drift(b, OperationOf(r), expensePlan, incomePlan) else r.cents
  {
    RowIsAnOperation(rows, r, from, to, known, balance, expenses, income, moreExpenses, moreIncome);
    if InKnownCategory(r, known) {
      OperationMovesByExcess(BooksOf(balance, expenses, income), OperationOf(r), expensePlan, incomePlan);
    }
  }
}
