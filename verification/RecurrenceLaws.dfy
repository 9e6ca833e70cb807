/** The clusters are as few as the tolerance allows, and neither they nor what is reported depend on
    the order in which the occurrences are read. */
module RecurrenceLaws {
  import opened Ordering
  import opened Recurrence

  // ----- Optimality

  ghost predicate Tight(group: seq<Occurrence>) {
    forall x, y :: x in group && y in group ==> CloseAmounts(x.cents, y.cents)
  }

  ghost predicate InSome(x: Occurrence, groups: seq<seq<Occurrence>>) {
    exists i :: 0 <= i < |groups| && x in groups[i]
  }

  ghost predicate Covers(groups: seq<seq<Occurrence>>, xs: seq<Occurrence>) {
    forall x :: x in xs ==> InSome(x, groups)
  }

  function Flat(groups: seq<seq<Occurrence>>): seq<Occurrence> {
    if groups == [] then [] else groups[0] + Flat(groups[1..])
  }

  /** The clusters are a partition into groups of spread at most the tolerance. */
  lemma {:induction false} ClustersPartition(xs: seq<Occurrence>)
    ensures multiset(Flat(Clusters(xs))) == multiset(xs)
    ensures forall i :: 0 <= i < |Clusters(xs)| ==> Clusters(xs)[i] != [] && Tight(Clusters(xs)[i])
    decreases |xs|
  {
    if xs != [] {
      var bound := LeastAmount(xs) + AMOUNT_TOLERANCE;
      AboveLeastIsShorter(xs);
      LeastAmountIs(xs);
      PartsAre(xs, bound);
      ClustersPartition(Above(xs, bound));
      assert Clusters(xs)[1..] == Clusters(Above(xs, bound));
      var x :| x in xs && x.cents == LeastAmount(xs);
      assert x in UpTo(xs, bound);
    }
  }

  lemma GroupOfLeast(groups: seq<seq<Occurrence>>, xs: seq<Occurrence>, i: nat, least: Occurrence)
    requires i < |groups| && least in groups[i] && Tight(groups[i])
    requires Covers(groups, xs)
    requires forall x :: x in xs ==> x.cents > least.cents + AMOUNT_TOLERANCE
    ensures Covers(groups[..i] + groups[i + 1..], xs)
  {
    var others := groups[..i] + groups[i + 1..];
    forall x | x in xs
      ensures InSome(x, others)
    {
      var k :| 0 <= k < |groups| && x in groups[k];
      assert k != i;
      assert groups[k] == others[if k < i then k else k - 1];
    }
  }

  /** No way of grouping the occurrences within the tolerance uses fewer groups. */
  lemma {:induction false} ClustersAreFewest(xs: seq<Occurrence>, groups: seq<seq<Occurrence>>)
    requires Covers(groups, xs)
    requires forall i :: 0 <= i < |groups| ==> Tight(groups[i])
    ensures |Clusters(xs)| <= |groups|
    decreases |xs|
  {
    if xs != [] {
      var bound := LeastAmount(xs) + AMOUNT_TOLERANCE;
      AboveLeastIsShorter(xs);
      LeastAmountIs(xs);
      PartsAre(xs, bound);
      var least :| least in xs && least.cents == LeastAmount(xs);
      assert InSome(least, groups);
      var i :| 0 <= i < |groups| && least in groups[i];
      GroupOfLeast(groups, Above(xs, bound), i, least);
      var others := groups[..i] + groups[i + 1..];
      forall k | 0 <= k < |others|
        ensures Tight(others[k])
      {
        assert others[k] == groups[if k < i then k else k + 1];
      }
      ClustersAreFewest(Above(xs, bound), others);
    }
  }

  // ----- Reading order

  lemma PartsPermute(xs: seq<Occurrence>, ys: seq<Occurrence>, bound: int)
    requires multiset(xs) == multiset(ys)
    ensures multiset(UpTo(xs, bound)) == multiset(UpTo(ys, bound))
    ensures multiset(Above(xs, bound)) == multiset(Above(ys, bound))
  {
    PartOf(xs, bound);
    PartOf(ys, bound);
  }

  lemma PartOf(xs: seq<Occurrence>, bound: int)
    ensures forall x :: multiset(UpTo(xs, bound))[x] == if x.cents <= bound then multiset(xs)[x] else 0
    ensures forall x :: multiset(Above(xs, bound))[x] == if x.cents > bound then multiset(xs)[x] else 0
  {
    PartsAre(xs, bound);
    forall x
      ensures multiset(UpTo(xs, bound))[x] == if x.cents <= bound then multiset(xs)[x] else 0
      ensures multiset(Above(xs, bound))[x] == if x.cents > bound then multiset(xs)[x] else 0
    {
      assert multiset(xs)[x] == multiset(UpTo(xs, bound))[x] + multiset(Above(xs, bound))[x];
      assert x.cents <= bound ==> x !in Above(xs, bound);
      assert x.cents > bound ==> x !in UpTo(xs, bound);
    }
  }

  lemma SameLeast(xs: seq<Occurrence>, ys: seq<Occurrence>)
    requires multiset(xs) == multiset(ys) && xs != [] && ys != []
    ensures LeastAmount(xs) == LeastAmount(ys)
  {
    SameElements(xs, ys);
    LeastAmountIs(xs);
    LeastAmountIs(ys);
  }

  ghost predicate SameClusters(cs: seq<seq<Occurrence>>, ds: seq<seq<Occurrence>>) {
    |cs| == |ds| && forall i :: 0 <= i < |cs| ==> multiset(cs[i]) == multiset(ds[i])
  }

  lemma SameClustersCons(c: seq<Occurrence>, cs: seq<seq<Occurrence>>, d: seq<Occurrence>, ds: seq<seq<Occurrence>>)
    requires multiset(c) == multiset(d) && SameClusters(cs, ds)
    ensures SameClusters([c] + cs, [d] + ds)
  {
  }

  /** Reordering the occurrences, equal amounts included, only reorders each cluster. */
  lemma {:induction false} ClustersPermute(xs: seq<Occurrence>, ys: seq<Occurrence>)
    requires multiset(xs) == multiset(ys)
    ensures SameClusters(Clusters(xs), Clusters(ys))
    decreases |xs|
  {
    SameSize(xs, ys);
    if xs != [] {
      var bound := LeastAmount(xs) + AMOUNT_TOLERANCE;
      SameLeast(xs, ys);
      PartsPermute(xs, ys, bound);
      AboveLeastIsShorter(xs);
      ClustersPermute(Above(xs, bound), Above(ys, bound));
      SameClustersCons(
        UpTo(xs, bound), Clusters(Above(xs, bound)), UpTo(ys, bound), Clusters(Above(ys, bound)));
    }
  }

  lemma DaysConcat(xs: seq<Occurrence>, ys: seq<Occurrence>)
    ensures Days(xs + ys) == Days(xs) + Days(ys)
  {
  }

  lemma TakeOut(ys: seq<Occurrence>, j: nat)
    requires j < |ys|
    ensures multiset(ys[..j] + ys[j + 1..]) == multiset(ys) - multiset{ys[j]}
    ensures multiset(Days(ys)) == multiset(Days(ys[..j] + ys[j + 1..])) + multiset{ys[j].day}
  {
    var (before, y, after) := (ys[..j], ys[j], ys[j + 1..]);
    assert ys == before + ([y] + after);
    DaysConcat(before, [y] + after);
    DaysConcat([y], after);
    DaysConcat(before, after);
    assert Days([y]) == [y.day];
  }

  lemma TakeFirst(xs: seq<Occurrence>)
    requires xs != []
    ensures multiset(xs[1..]) == multiset(xs) - multiset{xs[0]}
    ensures multiset(Days(xs)) == multiset(Days(xs[1..])) + multiset{xs[0].day}
  {
    assert xs == [xs[0]] + xs[1..];
    DaysConcat([xs[0]], xs[1..]);
    assert Days([xs[0]]) == [xs[0].day];
  }

  lemma {:induction false} DaysPermute(xs: seq<Occurrence>, ys: seq<Occurrence>)
    requires multiset(xs) == multiset(ys)
    ensures multiset(Days(xs)) == multiset(Days(ys))
  {
    SameSize(xs, ys);
    if xs == [] {
      assert Days(xs) == Days(ys);
    } else {
      SameElements(xs, ys);
      assert xs[0] in ys;
      var j :| 0 <= j < |ys| && ys[j] == xs[0];
      TakeFirst(xs);
      TakeOut(ys, j);
      DaysPermute(xs[1..], ys[..j] + ys[j + 1..]);
    }
  }

  lemma MonthlyPermutes(c: seq<Occurrence>, d: seq<Occurrence>)
    requires multiset(c) == multiset(d)
    ensures Monthly(c) <==> Monthly(d)
  {
    SameSize(c, d);
    DaysPermute(c, d);
    IntLeIsTotal();
    SortBySorts(Days(c), IntLe);
    SortBySorts(Days(d), IntLe);
    SortedListingIsUnique(SortBy(Days(c), IntLe), SortBy(Days(d), IntLe), IntLe);
  }

  lemma {:induction false} OfMerchantCounts(xs: seq<Occurrence>, m: string)
    ensures forall x :: multiset(OfMerchant(xs, m))[x] == if x.merchant == m then multiset(xs)[x] else 0
  {
    if xs != [] {
      assert xs == xs[..|xs| - 1] + [xs[|xs| - 1]];
      OfMerchantCounts(xs[..|xs| - 1], m);
    }
  }

  ghost predicate Hit(x: Occurrence, clusters: seq<seq<Occurrence>>) {
    exists i :: 0 <= i < |clusters| && x in clusters[i] && Monthly(clusters[i])
  }

  lemma HitCons(x: Occurrence, c: seq<Occurrence>, cs: seq<seq<Occurrence>>)
    ensures Hit(x, [c] + cs) <==> (x in c && Monthly(c)) || Hit(x, cs)
  {
    var all := [c] + cs;
    if x in c && Monthly(c) {
      assert all[0] == c;
    }
    if Hit(x, cs) {
      var i :| 0 <= i < |cs| && x in cs[i] && Monthly(cs[i]);
      assert all[i + 1] == cs[i];
    }
  }

  /** `x` stands in a monthly cluster of the occurrences `ys`. */
  ghost predicate InMonthly(x: Occurrence, ys: seq<Occurrence>) {
    Hit(x, Clusters(ys))
  }

  lemma RecursIsInMonthly(x: Occurrence, xs: seq<Occurrence>)
    ensures Recurs(x, xs) <==> InMonthly(x, OfMerchant(xs, x.merchant))
  {
    var cs := Clusters(OfMerchant(xs, x.merchant));
    if Recurs(x, xs) {
      var c :| c in cs && x in c && Monthly(c);
      var i :| 0 <= i < |cs| && cs[i] == c;
      assert x in cs[i] && Monthly(cs[i]);
    }
  }

  lemma InMonthlyPermutes(x: Occurrence, xs: seq<Occurrence>, ys: seq<Occurrence>)
    requires multiset(xs) == multiset(ys)
    requires InMonthly(x, xs)
    ensures InMonthly(x, ys)
  {
    ClustersPermute(xs, ys);
    var i :| 0 <= i < |Clusters(xs)| && x in Clusters(xs)[i] && Monthly(Clusters(xs)[i]);
    SameElements(Clusters(xs)[i], Clusters(ys)[i]);
    MonthlyPermutes(Clusters(xs)[i], Clusters(ys)[i]);
    assert x in Clusters(ys)[i];
  }

  lemma SameMerchantPermutes(xs: seq<Occurrence>, ys: seq<Occurrence>, m: string)
    requires multiset(xs) == multiset(ys)
    ensures multiset(OfMerchant(xs, m)) == multiset(OfMerchant(ys, m))
  {
    OfMerchantCounts(xs, m);
    OfMerchantCounts(ys, m);
  }

  /** What recurs does not depend on the order in which the occurrences are read. */
  lemma RecursIgnoresReadingOrder(xs: seq<Occurrence>, ys: seq<Occurrence>)
    requires multiset(xs) == multiset(ys)
    ensures forall x :: Recurs(x, xs) <==> Recurs(x, ys)
  {
    forall x
      ensures Recurs(x, xs) <==> Recurs(x, ys)
    {
      RecursIsInMonthly(x, xs);
      RecursIsInMonthly(x, ys);
      SameMerchantPermutes(xs, ys, x.merchant);
      if Recurs(x, xs) {
        InMonthlyPermutes(x, OfMerchant(xs, x.merchant), OfMerchant(ys, x.merchant));
      }
      if Recurs(x, ys) {
        InMonthlyPermutes(x, OfMerchant(ys, x.merchant), OfMerchant(xs, x.merchant));
      }
    }
  }

  // ----- Reported occurrences

  lemma {:induction false} ClusterMembers(ys: seq<Occurrence>)
    ensures forall i, x :: 0 <= i < |Clusters(ys)| && x in Clusters(ys)[i] ==> x in ys
    decreases |ys|
  {
    if ys != [] {
      var bound := LeastAmount(ys) + AMOUNT_TOLERANCE;
      AboveLeastIsShorter(ys);
      PartsAre(ys, bound);
      ClusterMembers(Above(ys, bound));
    }
  }

  lemma InMonthlyOfParts(x: Occurrence, ys: seq<Occurrence>)
    requires ys != []
    ensures var bound := LeastAmount(ys) + AMOUNT_TOLERANCE;
      InMonthly(x, ys) <==>
        if x.cents <= bound then x in ys && Monthly(UpTo(ys, bound)) else InMonthly(x, Above(ys, bound))
  {
    var bound := LeastAmount(ys) + AMOUNT_TOLERANCE;
    AboveLeastIsShorter(ys);
    PartsAre(ys, bound);
    HitCons(x, UpTo(ys, bound), Clusters(Above(ys, bound)));
    if x.cents <= bound {
      NotInMonthlyAbove(x, ys, bound);
    }
  }

  /** Each occurrence of a monthly cluster is reported as often as it occurs, the others never. */
  lemma {:induction false} ReportedCounts(ys: seq<Occurrence>, x: Occurrence)
    ensures multiset(Reported(Clusters(ys)))[x] == if InMonthly(x, ys) then multiset(ys)[x] else 0
    decreases |ys|
  {
    if ys != [] {
      var bound := LeastAmount(ys) + AMOUNT_TOLERANCE;
      AboveLeastIsShorter(ys);
      PartOf(ys, bound);
      InMonthlyOfParts(x, ys);
      ReportedCounts(Above(ys, bound), x);
      assert Clusters(ys)[1..] == Clusters(Above(ys, bound));
      PartsAre(ys, bound);
      if x.cents <= bound {
        NotInMonthlyAbove(x, ys, bound);
      }
    }
  }

  lemma NotInMonthlyAbove(x: Occurrence, ys: seq<Occurrence>, bound: int)
    requires x.cents <= bound
    ensures !InMonthly(x, Above(ys, bound))
  {
    PartsAre(ys, bound);
    ClusterMembers(Above(ys, bound));
  }
}
