/** The detection of recurring transactions, merchant by merchant. */
module RecurrenceDetection {
  import opened Ordering
  import opened Recurrence
  import opened RecurrenceLaws

  function IdsOf(xs: seq<Occurrence>): seq<nat> {
    seq(|xs|, i requires 0 <= i < |xs| => xs[i].id)
  }

  /** Identifiers of the monthly clusters of one merchant. */
  method ReportMerchant(group: seq<Occurrence>) returns (ids: seq<nat>, ghost found: seq<Occurrence>)
    ensures ids == IdsOf(found)
    ensures forall x :: multiset(found)[x] == if InMonthly(x, group) then multiset(group)[x] else 0
  {
    var clusters := GroupByAmount(group);
    ReportedOfSorted(group);
    ids, found := ReportClusters(clusters);
  }

  method ReportClusters(clusters: seq<seq<Occurrence>>) returns (ids: seq<nat>, ghost found: seq<Occurrence>)
    ensures ids == IdsOf(found) && found == Reported(clusters)
  {
    ids, found := [], [];
    for i := 0 to |clusters|
      invariant ids == IdsOf(found)
      invariant found + Reported(clusters[i..]) == Reported(clusters)
    {
      assert clusters[i..][1..] == clusters[i + 1..];
      var monthly := ClusterIsMonthly(clusters[i]);
      if monthly {
        assert (found + clusters[i]) + Reported(clusters[i + 1..]) == found + (clusters[i] + Reported(clusters[i + 1..]));
        ids := ids + IdsOf(clusters[i]);
        found := found + clusters[i];
      }
    }
    assert clusters[|clusters|..] == [] && found + [] == found;
  }

  lemma ReportedOfSorted(group: seq<Occurrence>)
    ensures forall x :: multiset(Reported(Clusters(SortBy(group, AmountLe))))[x]
                     == if InMonthly(x, group) then multiset(group)[x] else 0
  {
    var sorted := SortBy(group, AmountLe);
    forall x
      ensures multiset(Reported(Clusters(sorted)))[x] == if InMonthly(x, group) then multiset(group)[x] else 0
    {
      ReportedCounts(sorted, x);
      if InMonthly(x, sorted) {
        InMonthlyPermutes(x, sorted, group);
      }
      if InMonthly(x, group) {
        InMonthlyPermutes(x, group, sorted);
      }
    }
  }

  /** How often an occurrence must be reported. */
  ghost function Share(x: Occurrence, xs: seq<Occurrence>): nat {
    if Recurs(x, xs) then multiset(xs)[x] else 0
  }

  lemma ShareOfMerchant(x: Occurrence, xs: seq<Occurrence>, merchant: string)
    ensures var group := OfMerchant(xs, merchant);
      (if InMonthly(x, group) then multiset(group)[x] else 0) == if x.merchant == merchant then Share(x, xs) else 0
  {
    OfMerchantCounts(xs, merchant);
    if x.merchant == merchant {
      RecursIsInMonthly(x, xs);
    }
  }

  lemma ReportIsShare(more: seq<Occurrence>, xs: seq<Occurrence>, merchant: string)
    requires var group := OfMerchant(xs, merchant);
      forall x :: multiset(more)[x] == if InMonthly(x, group) then multiset(group)[x] else 0
    ensures forall x :: multiset(more)[x] == if x.merchant == merchant then Share(x, xs) else 0
  {
    forall x
      ensures multiset(more)[x] == if x.merchant == merchant then Share(x, xs) else 0
    {
      ShareOfMerchant(x, xs, merchant);
    }
  }

  /** What has been reported once the merchants of `done` have been read. */
  ghost predicate ReportedSoFar(found: seq<Occurrence>, xs: seq<Occurrence>, done: set<string>) {
    forall x :: multiset(found)[x] == if x.merchant in done then Share(x, xs) else 0
  }

  lemma OneMoreMerchant(
      found: seq<Occurrence>, more: seq<Occurrence>, xs: seq<Occurrence>, done: set<string>, merchant: string)
    requires ReportedSoFar(found, xs, done) && merchant !in done
    requires forall x :: multiset(more)[x] == if x.merchant == merchant then Share(x, xs) else 0
    ensures ReportedSoFar(found + more, xs, done + {merchant})
  {
  }

  method ReportGroup(group: seq<Occurrence>, ghost xs: seq<Occurrence>, ghost merchant: string)
    returns (ids: seq<nat>, ghost found: seq<Occurrence>)
    requires group == OfMerchant(xs, merchant)
    ensures ids == IdsOf(found)
    ensures forall x :: multiset(found)[x] == if x.merchant == merchant then Share(x, xs) else 0
  {
    ids, found := ReportMerchant(group);
    ReportIsShare(found, xs, merchant);
  }

  lemma IdsOfConcat(xs: seq<Occurrence>, ys: seq<Occurrence>)
    ensures IdsOf(xs + ys) == IdsOf(xs) + IdsOf(ys)
  {
  }

  /** Merchants are read in any order. */
  method ReportAll(xs: seq<Occurrence>) returns (ids: seq<nat>, ghost found: seq<Occurrence>)
    ensures ids == IdsOf(found)
    ensures forall x :: multiset(found)[x] == Share(x, xs)
  {
    var groups := GroupByMerchant(xs);
    var left := groups.Keys;
    ids, found := [], [];
    ghost var done: set<string> := {};
    while left != {}
      invariant left == groups.Keys - done
      invariant ids == IdsOf(found)
      invariant ReportedSoFar(found, xs, done)
      decreases |left|
    {
      var merchant :| merchant in left;
      var more, some := ReportGroup(groups[merchant], xs, merchant);
      OneMoreMerchant(found, some, xs, done, merchant);
      IdsOfConcat(found, some);
      ids, found := ids + more, found + some;
      left, done := left - {merchant}, done + {merchant};
    }
    AllMerchantsRead(found, xs, done, groups);
  }

  /** Every recurring occurrence is reported as often as it was given, and no other is. */
  method DetectRecurrences(xs: seq<Occurrence>) returns (ids: seq<nat>)
    ensures forall id :: id in ids <==> exists x :: x in xs && x.id == id && Recurs(x, xs)
    ensures (forall i, j :: 0 <= i < j < |xs| ==> xs[i].id != xs[j].id) ==> Distinct(ids)
  {
    ghost var found;
    ids, found := ReportAll(xs);
    ReportedIds(found, xs);
  }

  lemma AllMerchantsRead(
      found: seq<Occurrence>, xs: seq<Occurrence>, done: set<string>, groups: map<string, seq<Occurrence>>)
    requires ReportedSoFar(found, xs, done) && GroupsOf(groups, xs) && groups.Keys <= done
    ensures forall x :: multiset(found)[x] == Share(x, xs)
  {
    forall x
      ensures multiset(found)[x] == Share(x, xs)
    {
      if x.merchant !in groups {
        OfMerchantCounts(xs, x.merchant);
        assert multiset(OfMerchant(xs, x.merchant))[x] == 0;
      }
    }
  }

  lemma ReportedIds(found: seq<Occurrence>, xs: seq<Occurrence>)
    requires forall x :: multiset(found)[x] == Share(x, xs)
    ensures forall id :: id in IdsOf(found) <==> exists x :: x in xs && x.id == id && Recurs(x, xs)
    ensures (forall i, j :: 0 <= i < j < |xs| ==> xs[i].id != xs[j].id) ==> Distinct(IdsOf(found))
  {
    forall x
      ensures x in found <==> x in xs && Recurs(x, xs)
    {
      assert x in found <==> multiset(found)[x] > 0;
      assert x in xs <==> multiset(xs)[x] > 0;
    }
    forall id
      ensures id in IdsOf(found) <==> exists x :: x in xs && x.id == id && Recurs(x, xs)
    {
      if id in IdsOf(found) {
        var i :| 0 <= i < |found| && IdsOf(found)[i] == id;
        assert found[i] in found;
      }
      if x :| x in xs && x.id == id && Recurs(x, xs) {
        assert x in found;
        var i :| 0 <= i < |found| && found[i] == x;
        assert IdsOf(found)[i] == id;
      }
    }
    if forall i, j :: 0 <= i < j < |xs| ==> xs[i].id != xs[j].id {
      DistinctReported(found, xs);
    }
  }

  lemma DistinctReported(found: seq<Occurrence>, xs: seq<Occurrence>)
    requires forall i, j :: 0 <= i < j < |xs| ==> xs[i].id != xs[j].id
    requires forall x :: multiset(found)[x] <= multiset(xs)[x]
    ensures Distinct(IdsOf(found))
  {
    assert Distinct(xs);
    DistinctMultiset(xs);
    MultisetDistinct(found);
    forall i, j | 0 <= i < j < |found|
      ensures IdsOf(found)[i] != IdsOf(found)[j]
    {
      assert found[i] in multiset(found) && found[j] in multiset(found);
      assert found[i] in xs && found[j] in xs && found[i] != found[j];
    }
  }
}
