/** What the median resists, and when a category is worth predicting. */
module MedianLaws {
  import opened Median
  import opened Ordering
  import opened Spending
  import opened Transactions
  import opened Wrappers

  type Test = int -> bool

  function Count(xs: seq<int>, p: Test): nat {
    if xs == [] then 0 else (if p(xs[0]) then 1 else 0) + Count(xs[1..], p)
  }

  lemma {:induction false} CountConcat(xs: seq<int>, ys: seq<int>, p: Test)
    ensures Count(xs + ys, p) == Count(xs, p) + Count(ys, p)
  {
    if xs == [] {
      assert xs + ys == ys;
    } else {
      assert (xs + ys)[1..] == xs[1..] + ys;
      CountConcat(xs[1..], ys, p);
    }
  }

  lemma CountTakeOut(ys: seq<int>, j: nat, p: Test)
    requires j < |ys|
    ensures Count(ys, p) == Count(ys[..j] + ys[j + 1..], p) + if p(ys[j]) then 1 else 0
  {
    var (before, from, after) := (ys[..j], ys[j..], ys[j + 1..]);
    assert ys == before + from;
    CountConcat(before, from, p);
    CountConcat(before, after, p);
    assert from[1..] == after && from[0] == ys[j];
  }

  lemma MultisetTakeOut(ys: seq<int>, j: nat)
    requires j < |ys|
    ensures multiset(ys[..j] + ys[j + 1..]) == multiset(ys) - multiset{ys[j]}
  {
    assert ys == ys[..j] + ([ys[j]] + ys[j + 1..]);
  }

  lemma {:induction false} CountPermutes(xs: seq<int>, ys: seq<int>, p: Test)
    requires multiset(xs) == multiset(ys)
    ensures Count(xs, p) == Count(ys, p)
  {
    SameSize(xs, ys);
    if xs != [] {
      SameElements(xs, ys);
      assert xs[0] in ys;
      var j :| 0 <= j < |ys| && ys[j] == xs[0];
      CountTakeOut(ys, j, p);
      MultisetTakeOut(ys, j);
      MultisetTail(xs);
      CountPermutes(xs[1..], ys[..j] + ys[j + 1..], p);
    }
  }

  lemma {:induction false} CountAll(xs: seq<int>, p: Test)
    requires forall i :: 0 <= i < |xs| ==> p(xs[i])
    ensures Count(xs, p) == |xs|
  {
    if xs != [] {
      CountAll(xs[1..], p);
    }
  }

  // ----- Robustness

  function Changed(xs: seq<int>, ys: seq<int>): nat
    requires |xs| == |ys|
  {
    if xs == [] then 0 else (if xs[0] != ys[0] then 1 else 0) + Changed(xs[1..], ys[1..])
  }

  predicate UntouchedAt(xs: seq<int>, ys: seq<int>, i: int)
    requires |xs| == |ys|
  {
    0 <= i < |xs| && xs[i] == ys[i]
  }

  ghost predicate Untouched(xs: seq<int>, ys: seq<int>, p: Test)
    requires |xs| == |ys|
  {
    exists i :: 0 <= i < |xs| && xs[i] == ys[i] && p(ys[i])
  }

  /** More values pass a test than were changed: one that was not changed passes it. */
  lemma {:induction false} SomeUntouchedPasses(xs: seq<int>, ys: seq<int>, p: Test)
    requires |xs| == |ys|
    requires Count(ys, p) > Changed(xs, ys)
    ensures Untouched(xs, ys, p)
  {
    if xs != [] && !(xs[0] == ys[0] && p(ys[0])) {
      SomeUntouchedPasses(xs[1..], ys[1..], p);
      var i :| 0 <= i < |xs[1..]| && xs[1..][i] == ys[1..][i] && p(ys[1..][i]);
      assert xs[i + 1] == ys[i + 1] && p(ys[i + 1]);
    }
  }

  lemma HalfOnEachSide(ys: seq<int>)
    requires |ys| % 2 == 1
    ensures 2 * Count(ys, v => v <= MedianOf(ys)) > |ys|
    ensures 2 * Count(ys, v => v >= MedianOf(ys)) > |ys|
  {
    IntLeIsTotal();
    SortBySorts(ys, IntLe);
    var (s, m) := (SortBy(ys, IntLe), |ys| / 2);
    var median := s[m];
    assert MedianOf(ys) == median;
    HalfOfSorted(s, m, v => v <= median, v => v >= median);
    CountPermutes(s, ys, v => v <= median);
    CountPermutes(s, ys, v => v >= median);
  }

  lemma HalfOfSorted(s: seq<int>, m: nat, low: Test, high: Test)
    requires Sorted(s, IntLe) && m < |s|
    requires forall v :: low(v) <==> v <= s[m]
    requires forall v :: high(v) <==> v >= s[m]
    ensures Count(s, low) >= m + 1 && Count(s, high) >= |s| - m
  {
    assert s == s[..m + 1] + s[m + 1..] && s == s[..m] + s[m..];
    CountConcat(s[..m + 1], s[m + 1..], low);
    CountConcat(s[..m], s[m..], high);
    var (below, above) := (s[..m + 1], s[m..]);
    forall i | 0 <= i < |below|
      ensures low(below[i])
    {
      assert i < m ==> IntLe(s[i], s[m]);
    }
    forall i | 0 <= i < |above|
      ensures high(above[i])
    {
      assert i > 0 ==> IntLe(s[m], s[m + i]);
    }
    CountAll(s[..m + 1], low);
    CountAll(s[m..], high);
  }

  /** Whatever fewer than half of an odd number of values are replaced by, the median stays between two
      values that were not touched. */
  lemma MedianIsRobust(xs: seq<int>, ys: seq<int>)
    requires |xs| == |ys| && |ys| % 2 == 1
    requires 2 * Changed(xs, ys) < |ys|
    ensures exists i :: UntouchedAt(xs, ys, i) && xs[i] <= MedianOf(ys)
    ensures exists j :: UntouchedAt(xs, ys, j) && MedianOf(ys) <= xs[j]
  {
    HalfOnEachSide(ys);
    SomeUntouchedPasses(xs, ys, v => v <= MedianOf(ys));
    SomeUntouchedPasses(xs, ys, v => v >= MedianOf(ys));
    var i :| 0 <= i < |xs| && xs[i] == ys[i] && ys[i] <= MedianOf(ys);
    var j :| 0 <= j < |xs| && xs[j] == ys[j] && ys[j] >= MedianOf(ys);
    assert UntouchedAt(xs, ys, i) && UntouchedAt(xs, ys, j);
  }

  // ----- Positive medians

  function Positive(v: int): bool {
    v > 0
  }

  lemma {:induction false} SortedPositives(s: seq<int>, i: nat)
    requires Sorted(s, IntLe) && i < |s| && forall v :: v in s ==> v >= 0
    ensures s[i] > 0 <==> Count(s, Positive) >= |s| - i
  {
    assert s == [s[0]] + s[1..];
    if s[0] > 0 {
      forall k | 0 <= k < |s|
        ensures Positive(s[k])
      {
        assert k > 0 ==> IntLe(s[0], s[k]);
      }
      CountAll(s, Positive);
      assert s[i] in s;
    } else if i > 0 {
      assert s[0] in s;
      SortedPositives(s[1..], i - 1);
    } else {
      CountIsBounded(s[1..], Positive);
    }
  }

  lemma {:induction false} CountIsBounded(s: seq<int>, p: Test)
    ensures Count(s, p) <= |s|
  {
    if s != [] {
      CountIsBounded(s[1..], p);
    }
  }

  /** Non-negative amounts have a positive median exactly when more than half of them are positive; for
      an even number, also when exactly half are and none of those is a single cent. */
  lemma MedianIsPositive(values: seq<int>)
    requires forall v :: v in values ==> v >= 0
    ensures var positives := Count(values, Positive);
      MedianOf(values) > 0 <==>
        || 2 * positives > |values|
        || (values != [] && 2 * positives == |values| && forall v :: v in values && v > 0 ==> v >= 2)
  {
    if values != [] {
      var s := SortBy(values, IntLe);
      IntLeIsTotal();
      SortBySorts(values, IntLe);
      SameElements(s, values);
      CountPermutes(s, values, Positive);
      assert forall v :: v in s <==> v in values;
      MiddleIsPositive(s);
      assert (forall v :: v in s && v > 0 ==> v >= 2) <==> forall v :: v in values && v > 0 ==> v >= 2;
    }
  }

  lemma MiddleIsPositive(s: seq<int>)
    requires s != [] && Sorted(s, IntLe) && forall v :: v in s ==> v >= 0
    ensures var positives := Count(s, Positive);
      MiddleOf(s) > 0 <==>
        2 * positives > |s| || (2 * positives == |s| && forall v :: v in s && v > 0 ==> v >= 2)
  {
    var m := |s| / 2;
    SortedPositives(s, m);
    if |s| % 2 == 0 {
      SortedPositives(s, m - 1);
      EvenMedian(s, m);
    }
  }

  lemma EvenMedian(s: seq<int>, m: nat)
    requires Sorted(s, IntLe) && |s| == 2 * m && m > 0 && forall v :: v in s ==> v >= 0
    ensures HalfTowardsZero(s[m - 1] + s[m]) > 0 <==>
      s[m - 1] > 0 || (s[m] > 0 && forall v :: v in s && v > 0 ==> v >= 2)
  {
    assert IntLe(s[m - 1], s[m]);
    assert s[m - 1] in s && s[m] in s;
    if s[m - 1] == 0 && s[m] >= 2 {
      forall v | v in s && v > 0
        ensures v >= 2
      {
        var k :| 0 <= k < |s| && s[k] == v;
        assert k < m - 1 ==> IntLe(s[k], s[m - 1]);
        assert k > m ==> IntLe(s[m], s[k]);
      }
    }
  }

  lemma {:induction false} AmountsAre(history: History, category: nat)
    ensures |Amounts(history, category)| == |history|
    ensures forall i :: 0 <= i < |history| ==>
      var index := IndexByCategory(history[i]);
      Amounts(history, category)[i] == if category in index then index[category] else 0
  {
    if history != [] {
      AmountsAre(history[..|history| - 1], category);
    }
  }

  /** Over an odd number of months a category is predicted exactly when it is positive in more than half
      of them. */
  lemma PredictedExactlyWhenUsual(history: History, category: nat)
    requires |history| % 2 == 1
    ensures Appears(history, category) && MedianOf(Amounts(history, category)) > 0 <==>
      2 * Count(Amounts(history, category), Positive) > |history|
  {
    var amounts := Amounts(history, category);
    AmountsAre(history, category);
    MedianIsPositive(amounts);
    if !Appears(history, category) {
      forall x | x in amounts
        ensures x == 0
      {
        var i :| 0 <= i < |amounts| && amounts[i] == x;
        assert category !in IndexByCategory(history[i]);
      }
      NoPositive(amounts);
    }
  }

  lemma {:induction false} NoPositive(xs: seq<int>)
    requires forall x :: x in xs ==> x == 0
    ensures Count(xs, Positive) == 0
  {
    if xs != [] {
      assert xs[0] in xs && forall x :: x in xs[1..] ==> x in xs;
      NoPositive(xs[1..]);
    }
  }

  /** The amounts behind a median are what was spent in the category, month by month, absent months
      counting for zero. */
  lemma AmountsAreSpending(history: History, rows: seq<Row>, queries: seq<Query>, known: set<nat>, category: nat)
    requires |queries| == |history| && category in known
    requires forall i :: 0 <= i < |history| ==> Distributes(history[i], rows, queries[i], known)
    ensures |Amounts(history, category)| == |history|
    ensures forall i :: 0 <= i < |history| ==>
      Amounts(history, category)[i] == Spent(rows, queries[i], Some(category))
  {
    AmountsAre(history, category);
    forall i | 0 <= i < |history|
      ensures Amounts(history, category)[i] == Spent(rows, queries[i], Some(category))
    {
      if !Seen(rows, queries[i], Some(category)) {
        UnseenIsNothing(rows, queries[i], Some(category));
      }
    }
  }
}
