/** Medians of monthly amounts, category by category; a month without the category counts for zero. */
module Median {
  import opened Ordering
  import opened Spending

  /** Division of the implementation language: towards zero. */
  function HalfTowardsZero(n: int): int {
    if n >= 0 then n / 2 else -(-n / 2)
  }

  /** The median of values in ascending order. */
  function MiddleOf(sorted: seq<int>): int {
    if sorted == [] then 0
    else
      var middle := |sorted| / 2;
      if |sorted| % 2 == 0 then HalfTowardsZero(sorted[middle - 1] + sorted[middle]) else sorted[middle]
  }

  function MedianOf(values: seq<int>): int {
    MiddleOf(SortBy(values, IntLe))
  }

  /** Sorts the slice in place. */
  method SortInPlace(a: array<int>)
    modifies a
    ensures a[..] == SortBy(old(a[..]), IntLe)
  {
    ghost var was := a[..];
    for i := 0 to a.Length
      invariant multiset(a[..]) == multiset(was)
      invariant Ascending(a, i)
    {
      InsertInPlace(a, i);
    }
    assert Sorted(a[..], IntLe);
    IntLeIsTotal();
    SortBySorts(was, IntLe);
    SortedListingIsUnique(a[..], SortBy(was, IntLe), IntLe);
  }

  ghost predicate Ascending(a: array<int>, n: nat)
    requires n <= a.Length
    reads a
  {
    forall i, j :: 0 <= i < j < n ==> a[i] <= a[j]
  }

  lemma SwapKeeps(before: seq<int>, after: seq<int>, j: nat)
    requires 0 < j < |before|
    requires after == before[j - 1 := before[j]][j := before[j - 1]]
    ensures multiset(after) == multiset(before)
  {
  }

  /** Exchanges two neighbours. */
  method Exchange(a: array<int>, j: nat)
    requires 0 < j < a.Length
    modifies a
    ensures a[..] == old(a[..])[j - 1 := old(a[j])][j := old(a[j - 1])]
    ensures multiset(a[..]) == multiset(old(a[..]))
  {
    a[j - 1], a[j] := a[j], a[j - 1];
    SwapKeeps(old(a[..]), a[..], j);
  }

  /** The first `i` elements and the next one are in order, but for the one at `j`, not greater than
      those after it. */
  ghost predicate AscendingBut(s: seq<int>, i: nat, j: nat)
    requires j <= i < |s|
  {
    forall m, n :: 0 <= m < n <= i && n != j ==> s[m] <= s[n]
  }

  lemma ExchangeAscends(before: seq<int>, after: seq<int>, i: nat, j: nat)
    requires 0 < j <= i < |before| && AscendingBut(before, i, j)
    requires before[j - 1] > before[j]
    requires after == before[j - 1 := before[j]][j := before[j - 1]]
    ensures AscendingBut(after, i, j - 1)
  {
  }

  /** Brings the element at `i` down to its place in the sorted part before it. */
  method InsertInPlace(a: array<int>, i: nat)
    requires i < a.Length && Ascending(a, i)
    modifies a
    ensures multiset(a[..]) == multiset(old(a[..]))
    ensures Ascending(a, i + 1)
  {
    var j := i;
    while j > 0 && a[j - 1] > a[j]
      invariant 0 <= j <= i
      invariant multiset(a[..]) == multiset(old(a[..]))
      invariant AscendingBut(a[..], i, j)
    {
      ghost var before := a[..];
      Exchange(a, j);
      ExchangeAscends(before, a[..], i, j);
      j := j - 1;
    }
    ghost var s := a[..];
    forall m, n | 0 <= m < n < i + 1
      ensures s[m] <= s[n]
    {
      if n == j {
        assert m < j - 1 ==> s[m] <= s[j - 1];
      }
    }
  }

  /** Sorts the slice it is given and answers its median. */
  method ComputeMedian(a: array<int>) returns (median: int)
    modifies a
    ensures median == MedianOf(old(a[..]))
    ensures multiset(a[..]) == multiset(old(a[..]))
  {
    if a.Length == 0 {
      return 0;
    }
    SortInPlace(a);
    var middle := a.Length / 2;
    if a.Length % 2 == 0 {
      median := HalfTowardsZero(a[middle - 1] + a[middle]);
    } else {
      median := a[middle];
    }
  }

  // ----- Medians of a history

  type History = seq<seq<Line>>

  /** The amounts of a category, month by month, zero where it is absent. */
  function Amounts(history: History, category: nat): seq<int> {
    if history == [] then []
    else
      var (init, last) := (history[..|history| - 1], IndexByCategory(history[|history| - 1]));
      Amounts(init, category) + [if category in last then last[category] else 0]
  }

  predicate Appears(history: History, category: nat) {
    exists i :: 0 <= i < |history| && category in IndexByCategory(history[i])
  }

  /** The amounts actually present, in order. */
  function Present(history: History, category: nat): seq<int> {
    if history == [] then []
    else
      var (init, last) := (history[..|history| - 1], IndexByCategory(history[|history| - 1]));
      Present(init, category) + if category in last then [last[category]] else []
  }

  function Zeros(n: nat): seq<int> {
    seq(n, _ => 0)
  }

  /** One amount per month: those present padded with zeros, in some order. */
  ghost predicate IsPadded(present: seq<int>, months: nat, all: seq<int>) {
    && |present| <= months == |all|
    && multiset(present + Zeros(months - |present|)) == multiset(all)
  }

  /** Padding the amounts present with zeros gives the amounts of all months, in another order. */
  lemma {:induction false} PaddingCompletes(history: History, category: nat)
    ensures IsPadded(Present(history, category), |history|, Amounts(history, category))
  {
    if history != [] {
      var (init, month) := (history[..|history| - 1], history[|history| - 1]);
      var index := IndexByCategory(month);
      assert history == init + [month];
      PaddingCompletes(init, category);
      OneMoreMonth(init, month, category);
      PaddedOneMore(
        Present(init, category), |init|, Amounts(init, category),
        if category in index then [index[category]] else [], if category in index then index[category] else 0);
    }
  }

  /** One month more, in which the amount is present or counts for zero. */
  lemma PaddedOneMore(before: seq<int>, months: nat, all: seq<int>, present: seq<int>, amount: int)
    requires IsPadded(before, months, all)
    requires present == [amount] || (present == [] && amount == 0)
    ensures IsPadded(before + present, months + 1, all + [amount])
  {
    var zeros := Zeros(months - |before|);
    if present == [] {
      assert before + present == before;
      assert Zeros(months + 1 - |before|) == zeros + [0];
      assert before + (zeros + [0]) == before + zeros + [0];
    }
  }

  lemma MedianPermutes(xs: seq<int>, ys: seq<int>)
    requires multiset(xs) == multiset(ys)
    ensures MedianOf(xs) == MedianOf(ys)
  {
    IntLeIsTotal();
    SortBySorts(xs, IntLe);
    SortBySorts(ys, IntLe);
    SortedListingIsUnique(SortBy(xs, IntLe), SortBy(ys, IntLe), IntLe);
  }

  lemma {:induction false} AppearsIfPresent(history: History, category: nat)
    ensures Appears(history, category) <==> Present(history, category) != []
  {
    if history != [] {
      var init := history[..|history| - 1];
      AppearsIfPresent(init, category);
      if Appears(history, category) {
        var i :| 0 <= i < |history| && category in IndexByCategory(history[i]);
        assert i < |init| ==> init[i] == history[i];
      }
      if Appears(init, category) {
        var i :| 0 <= i < |init| && category in IndexByCategory(init[i]);
        assert init[i] == history[i];
      }
    }
  }

  lemma OneMoreMonth(history: History, month: seq<Line>, category: nat)
    ensures Present(history + [month], category) == Present(history, category)
      + if category in IndexByCategory(month) then [IndexByCategory(month)[category]] else []
    ensures Amounts(history + [month], category) == Amounts(history, category)
      + [if category in IndexByCategory(month) then IndexByCategory(month)[category] else 0]
  {
    assert (history + [month])[..|history|] == history;
  }

  /** The list of a category once a month's index has been pushed, if it is in `done`. */
  function Pushed(amounts: map<nat, seq<int>>, index: map<nat, nat>, done: set<nat>, category: nat): seq<int> {
    (if category in amounts then amounts[category] else [])
    + if category in index && category in done then [index[category]] else []
  }

  /** The amounts of the month's categories, each pushed on the list of its category. */
  method CollectMonth(amounts: map<nat, seq<int>>, index: map<nat, nat>) returns (more: map<nat, seq<int>>)
    ensures forall c :: c in more <==> c in amounts || c in index
    ensures forall c :: c in more ==> more[c] == Pushed(amounts, index, index.Keys, c)
  {
    more := amounts;
    var left := index.Keys;
    while left != {}
      invariant left <= index.Keys
      invariant forall c :: c in more <==> c in amounts || c in index.Keys - left
      invariant forall c :: c in more ==> more[c] == Pushed(amounts, index, index.Keys - left, c)
      decreases |left|
    {
      var c :| c in left;
      more := more[c := (if c in more then more[c] else []) + [index[c]]];
      left := left - {c};
    }
  }

  method Collect(history: History) returns (amounts: map<nat, seq<int>>)
    ensures forall c :: c in amounts <==> Appears(history, c)
    ensures forall c :: c in amounts ==> amounts[c] == Present(history, c)
  {
    amounts := map[];
    for i := 0 to |history|
      invariant forall c :: c in amounts <==> Present(history[..i], c) != []
      invariant forall c :: c in amounts ==> amounts[c] == Present(history[..i], c)
    {
      amounts := CollectMonth(amounts, IndexByCategory(history[i]));
      assert history[..i + 1] == history[..i] + [history[i]];
      forall c
        ensures Present(history[..i + 1], c) == Present(history[..i], c)
          + if c in IndexByCategory(history[i]) then [IndexByCategory(history[i])[c]] else []
      {
        OneMoreMonth(history[..i], history[i], c);
      }
    }
    assert history[..|history|] == history;
    forall c
      ensures Appears(history, c) <==> Present(history, c) != []
    {
      AppearsIfPresent(history, c);
    }
  }

  method ArrayOf(values: seq<int>) returns (a: array<int>)
    ensures fresh(a) && a[..] == values
  {
    a := new int[|values|](i requires 0 <= i < |values| => values[i]);
  }

  /** The median of a category over the history, after padding with zeros. */
  method MedianOfCategory(present: seq<int>, ghost history: History, months: nat, ghost category: nat)
    returns (median: int)
    requires present == Present(history, category) && months == |history|
    ensures median == MedianOf(Amounts(history, category))
  {
    MedianOfPadded(history, category);
    var a := ArrayOf(present + Zeros(months - |present|));
    median := ComputeMedian(a);
  }

  lemma MedianOfPadded(history: History, category: nat)
    ensures var present := Present(history, category);
      |present| <= |history| && MedianOf(present + Zeros(|history| - |present|)) == MedianOf(Amounts(history, category))
  {
    PaddingCompletes(history, category);
    PaddedMedian(Present(history, category), |history|, Amounts(history, category));
  }

  lemma PaddedMedian(present: seq<int>, months: nat, all: seq<int>)
    requires IsPadded(present, months, all)
    ensures MedianOf(present + Zeros(months - |present|)) == MedianOf(all)
  {
    MedianPermutes(present + Zeros(months - |present|), all);
  }

  /** The strictly positive medians. */
  method MediansByCategory(history: History) returns (medians: map<nat, int>)
    ensures forall c :: c in medians <==> Appears(history, c) && MedianOf(Amounts(history, c)) > 0
    ensures forall c :: c in medians ==> medians[c] == MedianOf(Amounts(history, c))
  {
    var amounts := Collect(history);
    medians := map[];
    var left := amounts.Keys;
    while left != {}
      invariant left <= amounts.Keys
      invariant forall c :: c in medians <==> c in amounts.Keys - left && MedianOf(Amounts(history, c)) > 0
      invariant forall c :: c in medians ==> medians[c] == MedianOf(Amounts(history, c))
      decreases |left|
    {
      var c :| c in left;
      var median := MedianOfCategory(amounts[c], history, |history|, c);
      if median > 0 {
        medians := medians[c := median];
      }
      left := left - {c};
    }
  }
}
