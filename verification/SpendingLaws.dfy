/** Spending over consecutive cycles adds up to spending over the whole interval. */
module SpendingLaws {
  import opened CycleLaws
  import opened Cycles
  import opened Spending
  import opened Transactions
  import opened Wrappers

  lemma {:induction false} SpentSplits(
      rows: seq<Row>, from: int, middle: int, to: int, direction: Direction, category: Option<nat>)
    requires from <= middle <= to
    ensures Spent(rows, Query(from, to, direction), category)
         == Spent(rows, Query(from, middle, direction), category) + Spent(rows, Query(middle, to, direction), category)
  {
    if rows != [] {
      SpentSplits(rows[..|rows| - 1], from, middle, to, direction, category);
    }
  }

  /** The cycle `n` months after `c`. */
  function Later(c: Cycle, n: nat): Cycle {
    if n == 0 then c else Next(Later(c, n - 1))
  }

  lemma {:induction false} LaterIsValid(c: Cycle, n: nat)
    requires ValidCycle(c)
    ensures ValidCycle(Later(c, n))
    ensures 1 <= Start(Later(c, n)).month && 1 <= EndExcluded(Later(c, n)).month
    ensures DayNumber(Start(c)) <= DayNumber(Start(Later(c, n))) < DayNumber(EndExcluded(Later(c, n)))
    ensures DayNumber(EndExcluded(Later(c, n))) == DayNumber(Start(Later(c, n + 1)))
  {
    if n > 0 {
      LaterIsValid(c, n - 1);
      PreviousOfNext(Later(c, n - 1).month);
    }
    BoundsOf(c);
    BoundsOf(Later(c, n));
    CyclesAbut(Later(c, n));
    CycleLengthAndName(Later(c, n));
  }

  type Queries = nat -> Query

  /** What the queries up to the one of rank `n` add up to. */
  ghost function SpentUpTo(rows: seq<Row>, qs: Queries, n: nat, category: Option<nat>): nat {
    (if n == 0 then 0 else SpentUpTo(rows, qs, n - 1, category)) + Spent(rows, qs(n), category)
  }

  /** A query of the direction, after the first, that ends where the next one starts. */
  ghost predicate Adjoins(qs: Queries, n: nat, direction: Direction) {
    && qs(n).direction == direction
    && qs(0).from <= qs(n).from <= qs(n).to == qs(n + 1).from
  }

  lemma {:induction false} AdjoiningAddUp(
      rows: seq<Row>, qs: Queries, n: nat, direction: Direction, category: Option<nat>)
    requires forall i :: 0 <= i <= n ==> Adjoins(qs, i, direction)
    ensures SpentUpTo(rows, qs, n, category) == Spent(rows, Query(qs(0).from, qs(n).to, direction), category)
  {
    assert Adjoins(qs, n, direction);
    if n > 0 {
      assert Adjoins(qs, n - 1, direction);
      AdjoiningAddUp(rows, qs, n - 1, direction, category);
      SpentSplits(rows, qs(0).from, qs(n).from, qs(n).to, direction, category);
    }
  }

  /** The query of the cycle `n` months after `c`. */
  ghost function QueryOfLater(c: Cycle, n: nat, direction: Direction): Query
    requires ValidCycle(c)
  {
    LaterIsValid(c, n);
    CycleQuery(Later(c, n), direction)
  }

  /** The queries of `c` and of the cycles after it. */
  ghost function CycleQueries(c: Cycle, direction: Direction): Queries
    requires ValidCycle(c)
  {
    (n: nat) => QueryOfLater(c, n, direction)
  }

  lemma QueriesAdjoin(c: Cycle, n: nat, direction: Direction)
    requires ValidCycle(c)
    ensures Adjoins(CycleQueries(c, direction), n, direction)
  {
    LaterIsValid(c, n);
  }

  /** Nothing is lost or counted twice between consecutive cycles: their queries add up to what was spent
      from the start of the first to the end of the last. */
  lemma CyclesPartitionSpending(rows: seq<Row>, c: Cycle, n: nat, direction: Direction, category: Option<nat>)
    requires ValidCycle(c)
    ensures var qs := CycleQueries(c, direction);
      SpentUpTo(rows, qs, n, category) == Spent(rows, Query(qs(0).from, qs(n).to, direction), category)
  {
    forall i | 0 <= i <= n
      ensures Adjoins(CycleQueries(c, direction), i, direction)
    {
      QueriesAdjoin(c, i, direction);
    }
    AdjoiningAddUp(rows, CycleQueries(c, direction), n, direction, category);
  }
}
