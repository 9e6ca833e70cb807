/** Detection of monthly recurring transactions: same merchant, amounts within one euro, monthly gaps. */
module Recurrence {
  import opened Ordering

  const MINIMUM_OCCURRENCES := 3
  const MONTHLY_GAP_MIN := 26
  const MONTHLY_GAP_MAX := 35
  const AMOUNT_TOLERANCE := 100

  /** `merchant` is the counterparty the label reduces to. */
  datatype Occurrence = Occurrence(id: nat, merchant: string, cents: int, day: int)

  predicate CloseAmounts(a: int, b: int) {
    -AMOUNT_TOLERANCE <= a - b <= AMOUNT_TOLERANCE
  }

  predicate AmountLe(a: Occurrence, b: Occurrence) {
    a.cents <= b.cents
  }

  // ----- Clusters, defined without sorting

  function LeastAmount(xs: seq<Occurrence>): int
    requires xs != []
  {
    if |xs| == 1 then xs[0].cents
    else
      var rest := LeastAmount(xs[1..]);
      if xs[0].cents <= rest then xs[0].cents else rest
  }

  function UpTo(xs: seq<Occurrence>, bound: int): seq<Occurrence> {
    if xs == [] then []
    else if xs[0].cents <= bound then [xs[0]] + UpTo(xs[1..], bound)
    else UpTo(xs[1..], bound)
  }

  function Above(xs: seq<Occurrence>, bound: int): seq<Occurrence> {
    if xs == [] then []
    else if xs[0].cents <= bound then Above(xs[1..], bound)
    else [xs[0]] + Above(xs[1..], bound)
  }

  lemma {:induction false} LeastAmountIs(xs: seq<Occurrence>)
    requires xs != []
    ensures exists x :: x in xs && x.cents == LeastAmount(xs)
    ensures forall x :: x in xs ==> LeastAmount(xs) <= x.cents
  {
    assert xs == [xs[0]] + xs[1..];
    if |xs| == 1 {
      assert xs[0] in xs;
    } else {
      LeastAmountIs(xs[1..]);
      var x :| x in xs[1..] && x.cents == LeastAmount(xs[1..]);
      assert x in xs && xs[0] in xs;
    }
  }

  /** Both parts keep the elements on their side, and only those. */
  lemma {:induction false} PartsAre(xs: seq<Occurrence>, bound: int)
    ensures multiset(UpTo(xs, bound)) + multiset(Above(xs, bound)) == multiset(xs)
    ensures forall x :: x in UpTo(xs, bound) <==> x in xs && x.cents <= bound
    ensures forall x :: x in Above(xs, bound) <==> x in xs && x.cents > bound
    ensures |UpTo(xs, bound)| + |Above(xs, bound)| == |xs|
  {
    if xs != [] {
      assert xs == [xs[0]] + xs[1..];
      PartsAre(xs[1..], bound);
    }
  }

  lemma AboveLeastIsShorter(xs: seq<Occurrence>)
    requires xs != []
    ensures |Above(xs, LeastAmount(xs) + AMOUNT_TOLERANCE)| < |xs|
  {
    var bound := LeastAmount(xs) + AMOUNT_TOLERANCE;
    LeastAmountIs(xs);
    PartsAre(xs, bound);
    var x :| x in xs && x.cents == LeastAmount(xs);
    assert x in UpTo(xs, bound);
  }

  /** The amounts within tolerance of the least one, then the same for the rest. */
  function Clusters(xs: seq<Occurrence>): seq<seq<Occurrence>>
    decreases |xs|
  {
    if xs == [] then []
    else
      AboveLeastIsShorter(xs);
      var bound := LeastAmount(xs) + AMOUNT_TOLERANCE;
      [UpTo(xs, bound)] + Clusters(Above(xs, bound))
  }

  // ----- Clusters, as the program builds them

  /** Continues the grouping of a sorted list: `open` is the cluster being filled. */
  function Grouped(open: seq<Occurrence>, rest: seq<Occurrence>): seq<seq<Occurrence>>
    requires open != []
    decreases |rest|
  {
    if rest == [] then [open]
    else if CloseAmounts(open[0].cents, rest[0].cents) then Grouped(open + [rest[0]], rest[1..])
    else [open] + Grouped([rest[0]], rest[1..])
  }

  lemma {:induction false} AboveAll(xs: seq<Occurrence>, bound: int)
    requires forall x :: x in xs ==> x.cents > bound
    ensures Above(xs, bound) == xs && UpTo(xs, bound) == []
  {
    if xs != [] {
      assert xs == [xs[0]] + xs[1..];
      AboveAll(xs[1..], bound);
    }
  }

  lemma {:induction false} SplitAt(xs: seq<Occurrence>, ys: seq<Occurrence>, bound: int)
    requires forall x :: x in xs ==> x.cents <= bound
    requires forall y :: y in ys ==> y.cents > bound
    ensures UpTo(xs + ys, bound) == xs && Above(xs + ys, bound) == ys
  {
    if xs == [] {
      assert xs + ys == ys;
      AboveAll(ys, bound);
    } else {
      assert (xs + ys)[1..] == xs[1..] + ys;
      SplitAt(xs[1..], ys, bound);
    }
  }

  lemma ConsistsOf(open: seq<Occurrence>, rest: seq<Occurrence>)
    requires Sorted(open + rest, AmountLe)
    ensures Sorted(open, AmountLe) && Sorted(rest, AmountLe)
    ensures forall x, y :: x in open && y in rest ==> x.cents <= y.cents
  {
    var all := open + rest;
    forall i, j | 0 <= i < j < |open|
      ensures AmountLe(open[i], open[j])
    {
      assert all[i] == open[i] && all[j] == open[j];
    }
    forall i, j | 0 <= i < j < |rest|
      ensures AmountLe(rest[i], rest[j])
    {
      assert all[|open| + i] == rest[i] && all[|open| + j] == rest[j];
    }
    forall x, y | x in open && y in rest
      ensures x.cents <= y.cents
    {
      var i :| 0 <= i < |open| && open[i] == x;
      var j :| 0 <= j < |rest| && rest[j] == y;
      assert AmountLe(all[i], all[|open| + j]);
    }
  }

  lemma ClustersSplit(open: seq<Occurrence>, rest: seq<Occurrence>)
    requires open != [] && Sorted(open + rest, AmountLe)
    requires forall x :: x in open ==> x.cents <= open[0].cents + AMOUNT_TOLERANCE
    requires forall y :: y in rest ==> y.cents > open[0].cents + AMOUNT_TOLERANCE
    ensures Clusters(open + rest) == [open] + Clusters(rest)
  {
    var (all, bound) := (open + rest, open[0].cents + AMOUNT_TOLERANCE);
    assert all[0] == open[0];
    LeastOfSorted(all);
    SplitAt(open, rest, bound);
    assert UpTo(all, bound) == open && Above(all, bound) == rest;
  }

  lemma RestIsFar(open: seq<Occurrence>, rest: seq<Occurrence>)
    requires open != [] && rest != [] && Sorted(open + rest, AmountLe)
    requires !CloseAmounts(open[0].cents, rest[0].cents)
    ensures forall y :: y in rest ==> y.cents > open[0].cents + AMOUNT_TOLERANCE
  {
    ConsistsOf(open, rest);
    assert open[0] in open && rest[0] in rest;
    forall y | y in rest
      ensures y.cents >= rest[0].cents
    {
      var j :| 0 <= j < |rest| && rest[j] == y;
      assert j > 0 ==> AmountLe(rest[0], rest[j]);
    }
  }

  /** On a sorted list the program's grouping yields exactly the clusters. */
  lemma {:induction false} GroupedIsClusters(open: seq<Occurrence>, rest: seq<Occurrence>)
    requires open != [] && Sorted(open + rest, AmountLe)
    requires forall x :: x in open ==> x.cents <= open[0].cents + AMOUNT_TOLERANCE
    ensures Grouped(open, rest) == Clusters(open + rest)
    decreases |rest|
  {
    if rest == [] {
      ClustersSplit(open, rest);
    } else if CloseAmounts(open[0].cents, rest[0].cents) {
      assert (open + [rest[0]]) + rest[1..] == open + rest;
      GroupedIsClusters(open + [rest[0]], rest[1..]);
    } else {
      RestIsFar(open, rest);
      ClustersSplit(open, rest);
      ConsistsOf(open, rest);
      assert [rest[0]] + rest[1..] == rest;
      GroupedIsClusters([rest[0]], rest[1..]);
    }
  }

  lemma LeastOfSorted(xs: seq<Occurrence>)
    requires xs != [] && Sorted(xs, AmountLe)
    ensures LeastAmount(xs) == xs[0].cents
  {
    LeastAmountIs(xs);
    var x :| x in xs && x.cents == LeastAmount(xs);
    var j :| 0 <= j < |xs| && xs[j] == x;
    assert j > 0 ==> AmountLe(xs[0], xs[j]);
    assert xs[0] in xs;
  }

  /** The clusters once the program has read the rest of the sorted list. */
  ghost function Finished(clusters: seq<seq<Occurrence>>, rest: seq<Occurrence>): seq<seq<Occurrence>>
    requires clusters != [] && clusters[|clusters| - 1] != []
  {
    clusters[..|clusters| - 1] + Grouped(clusters[|clusters| - 1], rest)
  }

  lemma FinishedAfterJoining(closed: seq<seq<Occurrence>>, open: seq<Occurrence>, rest: seq<Occurrence>)
    requires open != [] && rest != [] && CloseAmounts(open[0].cents, rest[0].cents)
    ensures Finished(closed + [open + [rest[0]]], rest[1..]) == Finished(closed + [open], rest)
  {
    assert (closed + [open + [rest[0]]])[..|closed|] == closed == (closed + [open])[..|closed|];
  }

  lemma FinishedAfterOpening(closed: seq<seq<Occurrence>>, open: seq<Occurrence>, rest: seq<Occurrence>)
    requires open != [] && rest != [] && !CloseAmounts(open[0].cents, rest[0].cents)
    ensures Finished(closed + [open] + [[rest[0]]], rest[1..]) == Finished(closed + [open], rest)
  {
    assert (closed + [open])[..|closed|] == closed;
    assert (closed + [open] + [[rest[0]]])[..|closed| + 1] == closed + [open];
  }

  method GroupSorted(sorted: seq<Occurrence>) returns (clusters: seq<seq<Occurrence>>)
    requires Sorted(sorted, AmountLe)
    ensures clusters == Clusters(sorted)
  {
    clusters := [];
    for i := 0 to |sorted|
      invariant i == 0 <==> clusters == []
      invariant i > 0 ==> clusters[|clusters| - 1] != [] && Finished(clusters, sorted[i..]) == Clusters(sorted)
    {
      var x := sorted[i];
      ghost var rest := sorted[i..];
      assert rest[0] == x && rest[1..] == sorted[i + 1..];
      if i == 0 {
        FinishedAfterFirst(sorted);
        clusters := [[x]];
      } else {
        var (closed, open) := (clusters[..|clusters| - 1], clusters[|clusters| - 1]);
        assert clusters == closed + [open];
        if CloseAmounts(open[0].cents, x.cents) {
          FinishedAfterJoining(closed, open, rest);
          clusters := closed + [open + [x]];
        } else {
          FinishedAfterOpening(closed, open, rest);
          clusters := closed + [open] + [[x]];
        }
      }
    }
    assert sorted[|sorted|..] == [];
    if clusters != [] {
      assert clusters == clusters[..|clusters| - 1] + [clusters[|clusters| - 1]];
    }
  }

  lemma FinishedAfterFirst(sorted: seq<Occurrence>)
    requires sorted != [] && Sorted(sorted, AmountLe)
    ensures Finished([[sorted[0]]], sorted[1..]) == Clusters(sorted)
  {
    assert [sorted[0]] + sorted[1..] == sorted;
    GroupedIsClusters([sorted[0]], sorted[1..]);
    assert [] + Grouped([sorted[0]], sorted[1..]) == Grouped([sorted[0]], sorted[1..]);
  }

  method GroupByAmount(occurrences: seq<Occurrence>) returns (clusters: seq<seq<Occurrence>>)
    ensures clusters == Clusters(SortBy(occurrences, AmountLe))
  {
    AmountLeIsTotal();
    SortBySorts(occurrences, AmountLe);
    clusters := GroupSorted(SortBy(occurrences, AmountLe));
  }

  lemma AmountLeIsTotal()
    ensures TotalPreorder(AmountLe)
  {
  }

  // ----- Monthly clusters

  predicate MonthlyGap(a: int, b: int) {
    MONTHLY_GAP_MIN <= b - a <= MONTHLY_GAP_MAX
  }

  function MonthlyGaps(days: seq<int>): nat {
    if |days| < 2 then 0
    else MonthlyGaps(days[..|days| - 1]) + if MonthlyGap(days[|days| - 2], days[|days| - 1]) then 1 else 0
  }

  function Days(xs: seq<Occurrence>): seq<int> {
    seq(|xs|, i requires 0 <= i < |xs| => xs[i].day)
  }

  predicate Monthly(cluster: seq<Occurrence>) {
    && |cluster| >= MINIMUM_OCCURRENCES
    && MonthlyGaps(SortBy(Days(cluster), IntLe)) >= MINIMUM_OCCURRENCES - 1
  }

  method ClusterIsMonthly(cluster: seq<Occurrence>) returns (monthly: bool)
    ensures monthly == Monthly(cluster)
  {
    if |cluster| < MINIMUM_OCCURRENCES {
      return false;
    }
    var days := SortBy(Days(cluster), IntLe);
    var gaps: nat := 0;
    for i := 1 to |days|
      invariant gaps == MonthlyGaps(days[..i])
    {
      assert days[..i + 1][..i] == days[..i];
      if MonthlyGap(days[i - 1], days[i]) {
        gaps := gaps + 1;
      }
    }
    assert days[..|days|] == days;
    monthly := gaps >= MINIMUM_OCCURRENCES - 1;
  }

  // ----- Detection

  function OfMerchant(xs: seq<Occurrence>, merchant: string): seq<Occurrence> {
    if xs == [] then []
    else OfMerchant(xs[..|xs| - 1], merchant) + if xs[|xs| - 1].merchant == merchant then [xs[|xs| - 1]] else []
  }

  /** An occurrence recurs when its cluster, among those of its merchant, is monthly. */
  predicate Recurs(x: Occurrence, xs: seq<Occurrence>) {
    exists c :: c in Clusters(OfMerchant(xs, x.merchant)) && x in c && Monthly(c)
  }

  /** The occurrences of the monthly clusters. */
  function Reported(clusters: seq<seq<Occurrence>>): seq<Occurrence> {
    if clusters == [] then []
    else if Monthly(clusters[0]) then clusters[0] + Reported(clusters[1..])
    else Reported(clusters[1..])
  }

  ghost predicate GroupsOf(groups: map<string, seq<Occurrence>>, xs: seq<Occurrence>) {
    forall m :: if m in groups then groups[m] == OfMerchant(xs, m) != [] else OfMerchant(xs, m) == []
  }

  lemma OneMoreOfMerchant(xs: seq<Occurrence>, x: Occurrence, m: string)
    ensures OfMerchant(xs + [x], m) == OfMerchant(xs, m) + if x.merchant == m then [x] else []
  {
    assert (xs + [x])[..|xs|] == xs;
  }

  lemma OneMoreGrouped(groups: map<string, seq<Occurrence>>, xs: seq<Occurrence>, x: Occurrence)
    requires GroupsOf(groups, xs)
    ensures var group := if x.merchant in groups then groups[x.merchant] else [];
      GroupsOf(groups[x.merchant := group + [x]], xs + [x])
  {
    var group := if x.merchant in groups then groups[x.merchant] else [];
    var more := groups[x.merchant := group + [x]];
    forall m
      ensures if m in more then more[m] == OfMerchant(xs + [x], m) != [] else OfMerchant(xs + [x], m) == []
    {
      OneMoreOfMerchant(xs, x, m);
    }
  }

  /** Occurrences of each merchant, in reading order. */
  method GroupByMerchant(xs: seq<Occurrence>) returns (groups: map<string, seq<Occurrence>>)
    ensures GroupsOf(groups, xs)
  {
    groups := map[];
    for i := 0 to |xs|
      invariant GroupsOf(groups, xs[..i])
    {
      var x := xs[i];
      OneMoreGrouped(groups, xs[..i], x);
      assert xs[..i + 1] == xs[..i] + [x];
      var group := if x.merchant in groups then groups[x.merchant] else [];
      groups := groups[x.merchant := group + [x]];
    }
    assert xs[..|xs|] == xs;
  }
}
