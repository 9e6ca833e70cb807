/** What the quota promises over every interleaving, and exactly when it holds. */
module QuotaLaws {
  import opened Ordering
  import opened Quota
  import opened Wrappers

  /** A day comes back after another day was served. */
  ghost predicate Returns(days: seq<int>) {
    exists i, j, k :: ReturnsAt(days, i, j, k)
  }

  ghost predicate ReturnsAt(days: seq<int>, i: int, j: int, k: int) {
    0 <= i < j < k < |days| && days[i] == days[k] != days[j]
  }

  ghost predicate NeverGoesBack(days: seq<int>) {
    forall i, j :: 0 <= i < j < |days| ==> days[i] <= days[j]
  }

  lemma MonotoneDaysNeverReturn(days: seq<int>)
    requires NeverGoesBack(days)
    ensures !Returns(days)
  {
  }

  lemma ReturnsOfPrefix(days: seq<int>, n: nat)
    requires n <= |days| && !Returns(days)
    ensures !Returns(days[..n])
  {
    forall i, j, k
      ensures !ReturnsAt(days[..n], i, j, k)
    {
      assert !ReturnsAt(days, i, j, k);
    }
  }

  lemma {:induction false} NotGrantedElsewhere(days: seq<int>, quota: int, day: int)
    requires day !in days
    ensures GrantedOn(UNUSED, days, quota, day) == 0
  {
    if days != [] {
      NotGrantedElsewhere(days[..|days| - 1], quota, day);
    }
  }

  /** The stored day is the last one served, if any slot can be granted at all. */
  lemma {:induction false} LastDayIsLastServed(days: seq<int>, quota: int)
    requires quota >= 1
    ensures Served(UNUSED, days, quota).lastDay == if days == [] then None else Some(days[|days| - 1])
  {
    if days != [] {
      LastDayIsLastServed(days[..|days| - 1], quota);
    }
  }

  lemma {:induction false} NothingGranted(days: seq<int>, quota: int, day: int)
    requires quota <= 0
    ensures GrantedOn(UNUSED, days, quota, day) == 0 && Served(UNUSED, days, quota) == UNUSED
  {
    if days != [] {
      NothingGranted(days[..|days| - 1], quota, day);
    }
  }

  lemma LastIsNew(days: seq<int>)
    requires days != [] && !Returns(days)
    requires |days| >= 2 ==> days[|days| - 2] != days[|days| - 1]
    ensures days[|days| - 1] !in days[..|days| - 1]
  {
    var last := |days| - 1;
    forall i | 0 <= i < last
      ensures days[i] != days[last]
    {
      assert !ReturnsAt(days, i, last - 1, last);
    }
  }

  /** As long as no day comes back, the counter is the number of slots granted on the stored day, and
      no day gets more than the quota. */
  lemma {:induction false} QuotaHolds(days: seq<int>, quota: int)
    requires quota >= 1 && !Returns(days)
    ensures forall day :: GrantedOn(UNUSED, days, quota, day) <= quota
    ensures var s := Served(UNUSED, days, quota);
      days != [] ==> s.count == GrantedOn(UNUSED, days, quota, days[|days| - 1])
    decreases |days|
  {
    if days != [] {
      var (init, last) := (days[..|days| - 1], days[|days| - 1]);
      ReturnsOfPrefix(days, |days| - 1);
      QuotaHolds(init, quota);
      LastDayIsLastServed(init, quota);
      if init == [] || init[|init| - 1] != last {
        LastIsNew(days);
        NotGrantedElsewhere(init, quota, last);
      }
    }
  }

  // ----- The condition is exact

  function Repeat(day: int, n: nat): seq<int> {
    if n == 0 then [] else Repeat(day, n - 1) + [day]
  }

  /** The same visits, each attempt made as often as the quota allows. */
  function Insistent(days: seq<int>, quota: nat): seq<int> {
    if days == [] then []
    else Insistent(days[..|days| - 1], quota) + Repeat(days[|days| - 1], quota)
  }

  /** How many times a day is entered from another one. */
  function Entries(days: seq<int>, day: int): nat {
    if days == [] then 0
    else
      Entries(days[..|days| - 1], day)
      + if days[|days| - 1] == day && (|days| == 1 || days[|days| - 2] != day) then 1 else 0
  }

  function AtMost(n: int, bound: int): int {
    if n <= bound then n else bound
  }

  lemma OneMoreServed(before: seq<int>, day: int, quota: int, other: int)
    ensures var s := Served(UNUSED, before, quota);
      && Served(UNUSED, before + [day], quota) == Reserve(s, day, quota)
      && GrantedOn(UNUSED, before + [day], quota, other) == GrantedOn(UNUSED, before, quota, other)
         + if other == day && Grants(s, day, quota) then 1 else 0
  {
    assert (before + [day])[..|before|] == before;
  }

  function Pushed(s: Slots, day: int, n: nat, quota: int): Slots {
    if n == 0 then s else Reserve(Pushed(s, day, n - 1, quota), day, quota)
  }

  lemma {:induction false} PushedUses(s: Slots, day: int, n: nat, quota: int)
    requires 0 <= UsedOn(s, day) <= quota
    ensures UsedOn(Pushed(s, day, n, quota), day) == AtMost(UsedOn(s, day) + n, quota)
    ensures n > 0 && quota >= 1 ==> Pushed(s, day, n, quota).lastDay == Some(day)
  {
    if n > 0 {
      PushedUses(s, day, n - 1, quota);
    }
  }

  lemma RepeatOneMore(before: seq<int>, day: int, n: nat)
    requires n > 0
    ensures before + Repeat(day, n) == (before + Repeat(day, n - 1)) + [day]
  {
  }

  lemma {:induction false} ServedInsistently(before: seq<int>, day: int, n: nat, quota: int, other: int)
    ensures var (s, all) := (Served(UNUSED, before, quota), before + Repeat(day, n));
      && Served(UNUSED, all, quota) == Pushed(s, day, n, quota)
      && GrantedOn(UNUSED, all, quota, other) == GrantedOn(UNUSED, before, quota, other)
         + if other == day then UsedOn(Pushed(s, day, n, quota), day) - UsedOn(s, day) else 0
  {
    if n == 0 {
      assert before + Repeat(day, 0) == before;
    } else {
      ServedInsistently(before, day, n - 1, quota, other);
      RepeatOneMore(before, day, n);
      OneMoreServed(before + Repeat(day, n - 1), day, quota, other);
    }
  }

  /** A visit made insistently uses up what the day has left. */
  lemma Visit(before: seq<int>, day: int, quota: nat, other: int)
    requires quota >= 1
    requires Served(UNUSED, before, quota).lastDay == Some(day) ==> Served(UNUSED, before, quota).count == quota
    ensures var all := before + Repeat(day, quota);
      && Served(UNUSED, all, quota) == Slots(quota, Some(day))
      && GrantedOn(UNUSED, all, quota, other) == GrantedOn(UNUSED, before, quota, other)
         + if other == day && Served(UNUSED, before, quota).lastDay != Some(day) then quota else 0
  {
    PushedUses(Served(UNUSED, before, quota), day, quota, quota);
    ServedInsistently(before, day, quota, quota, other);
  }

  lemma OneMoreEntry(quota: nat, entries: nat)
    ensures quota * (entries + 1) == quota * entries + quota
  {
  }

  lemma {:induction false} InsistentRun(days: seq<int>, quota: nat, day: int)
    requires quota >= 1
    ensures Served(UNUSED, Insistent(days, quota), quota)
         == if days == [] then UNUSED else Slots(quota, Some(days[|days| - 1]))
    ensures GrantedOn(UNUSED, Insistent(days, quota), quota, day) == quota * Entries(days, day)
  {
    if days != [] {
      var (init, last) := (days[..|days| - 1], days[|days| - 1]);
      InsistentRun(init, quota, day);
      Visit(Insistent(init, quota), last, quota, day);
      assert init == [] || init[|init| - 1] == days[|days| - 2];
      EntriesOneMore(days, quota, day);
    }
  }

  lemma EntriesOneMore(days: seq<int>, quota: nat, day: int)
    requires days != []
    ensures quota * Entries(days, day) == quota * Entries(days[..|days| - 1], day)
      + if days[|days| - 1] == day && (|days| == 1 || days[|days| - 2] != day) then quota else 0
  {
    OneMoreEntry(quota, Entries(days[..|days| - 1], day));
  }

  lemma {:induction false} EnteredIfServed(days: seq<int>, day: int)
    ensures day in days ==> Entries(days, day) >= 1
  {
    if days != [] {
      var (init, last) := (days[..|days| - 1], days[|days| - 1]);
      assert days == init + [last];
      EnteredIfServed(init, day);
    }
  }

  lemma {:induction false} EnteredAgain(days: seq<int>, i: nat, j: nat, k: nat)
    requires ReturnsAt(days, i, j, k)
    ensures Entries(days, days[k]) >= 2
    decreases |days|
  {
    var (init, last) := (days[..|days| - 1], days[|days| - 1]);
    if k < |days| - 1 {
      EnteredAgain(init, i, j, k);
    } else if days[k - 1] == days[k] {
      EnteredAgain(init, i, j, k - 1);
    } else {
      assert days[i] in init;
      EnteredIfServed(init, days[k]);
    }
  }

  lemma {:induction false} EnteredTwiceReturns(days: seq<int>, day: int)
    requires Entries(days, day) >= 2
    ensures Returns(days)
    decreases |days|
  {
    var (init, last) := (days[..|days| - 1], days[|days| - 1]);
    if Entries(init, day) >= 2 {
      EnteredTwiceReturns(init, day);
      var i, j, k :| ReturnsAt(init, i, j, k);
      assert ReturnsAt(days, i, j, k);
    } else {
      NotEnteredIfAbsent(init, day);
      var i :| 0 <= i < |init| && init[i] == day;
      assert ReturnsAt(days, i, |days| - 2, |days| - 1);
    }
  }

  lemma {:induction false} NotEnteredIfAbsent(days: seq<int>, day: int)
    ensures day !in days ==> Entries(days, day) == 0
  {
    if days != [] {
      NotEnteredIfAbsent(days[..|days| - 1], day);
    }
  }

  /** Visiting days in a given order, with as many attempts at each visit as the quota allows, keeps to
      the quota exactly when no day comes back after another: a clock that goes back gives a day its
      quota again. With fewer attempts a day may come back without harm; see `QuotaHoldsExactly`. */
  lemma QuotaHoldsExactlyWithoutReturn(days: seq<int>, quota: nat)
    requires quota >= 1
    ensures (forall day :: GrantedOn(UNUSED, Insistent(days, quota), quota, day) <= quota) <==> !Returns(days)
  {
    forall day
      ensures GrantedOn(UNUSED, Insistent(days, quota), quota, day) == quota * Entries(days, day)
    {
      InsistentRun(days, quota, day);
    }
    if Returns(days) {
      var i, j, k :| ReturnsAt(days, i, j, k);
      EnteredAgain(days, i, j, k);
      Doubled(quota, Entries(days, days[k]));
      assert GrantedOn(UNUSED, Insistent(days, quota), quota, days[k]) > quota;
    } else {
      forall day
        ensures quota * Entries(days, day) <= quota
      {
        if Entries(days, day) >= 2 {
          EnteredTwiceReturns(days, day);
        }
        AtMostOnce(quota, Entries(days, day));
      }
    }
  }

  lemma Doubled(quota: nat, entries: nat)
    requires quota >= 1 && entries >= 2
    ensures quota * entries > quota
  {
    assert quota * entries >= quota * 2;
  }

  lemma AtMostOnce(quota: nat, entries: nat)
    requires entries < 2
    ensures quota * entries <= quota
  {
    assert entries == 0 || entries == 1;
  }

  // ----- Exactly which attempts are granted

  /** How many attempts in a row, the last included, were made on the day of the last. */
  function Stretch(days: seq<int>): nat {
    if days == [] then 0
    else if |days| == 1 || days[|days| - 2] != days[|days| - 1] then 1
    else Stretch(days[..|days| - 1]) + 1
  }

  /** How many attempts on a day are among the first `quota` of an unbroken stretch on it. */
  function Early(days: seq<int>, quota: int, day: int): nat {
    if days == [] then 0
    else Early(days[..|days| - 1], quota, day) + if days[|days| - 1] == day && Stretch(days) <= quota then 1 else 0
  }

  lemma {:induction false} ServedAfterStretch(days: seq<int>, quota: int)
    requires quota >= 1 && days != []
    ensures Served(UNUSED, days, quota) == Slots(AtMost(Stretch(days), quota), Some(days[|days| - 1]))
  {
    if |days| > 1 {
      ServedAfterStretch(days[..|days| - 1], quota);
    }
  }

  /** The attempts granted are the early ones, whatever the order of the days. */
  lemma {:induction false} GrantsAreEarly(days: seq<int>, quota: int, day: int)
    ensures GrantedOn(UNUSED, days, quota, day) == Early(days, quota, day)
  {
    if days != [] {
      var init := days[..|days| - 1];
      GrantsAreEarly(init, quota, day);
      if quota >= 1 && init != [] {
        ServedAfterStretch(init, quota);
      } else if quota < 1 {
        NothingGranted(init, quota, day);
      }
    }
  }

  // ----- Every interleaving

  lemma {:induction false} AccountSeesItsOwnAttempts(
      accounts: Accounts, attempts: seq<Attempt>, quota: int, account: nat, day: int)
    requires account in accounts
    ensures account in Run(accounts, attempts, quota)
    ensures Run(accounts, attempts, quota)[account] == Served(accounts[account], DaysOf(attempts, account), quota)
    ensures GrantedTo(accounts, attempts, quota, account, day)
         == GrantedOn(accounts[account], DaysOf(attempts, account), quota, day)
  {
    if attempts != [] {
      var (init, last) := (attempts[..|attempts| - 1], attempts[|attempts| - 1]);
      AccountSeesItsOwnAttempts(accounts, init, quota, account, day);
      if last.account == account {
        var days := DaysOf(attempts, account);
        assert days[..|days| - 1] == DaysOf(init, account);
      } else {
        assert DaysOf(attempts, account) == DaysOf(init, account);
      }
    }
  }

  /** Whatever the interleaving of workers and however stale their due lists, an account whose days
      never go back is granted at most `quota` slots a day, and its counter tells how many it was
      granted on the day it stores. */
  lemma QuotaIsSafe(accounts: Accounts, attempts: seq<Attempt>, quota: int, account: nat, day: int)
    requires account in accounts && accounts[account] == UNUSED
    requires NeverGoesBack(DaysOf(attempts, account))
    ensures GrantedTo(accounts, attempts, quota, account, day) <= if quota >= 0 then quota else 0
    ensures account in Run(accounts, attempts, quota)
    ensures var s := Run(accounts, attempts, quota)[account];
      s.lastDay.Some? ==> s.count == GrantedTo(accounts, attempts, quota, account, s.lastDay.value)
  {
    var days := DaysOf(attempts, account);
    AccountSeesItsOwnAttempts(accounts, attempts, quota, account, day);
    if quota >= 1 {
      MonotoneDaysNeverReturn(days);
      QuotaHolds(days, quota);
      LastDayIsLastServed(days, quota);
      if days != [] {
        AccountSeesItsOwnAttempts(accounts, attempts, quota, account, days[|days| - 1]);
      }
    } else {
      NothingGranted(days, quota, day);
    }
  }

  /** Which attempts on an account are granted, in any interleaving. */
  lemma GrantsToAccountAreEarly(accounts: Accounts, attempts: seq<Attempt>, quota: int, account: nat, day: int)
    requires account in accounts && accounts[account] == UNUSED
    ensures GrantedTo(accounts, attempts, quota, account, day) == Early(DaysOf(attempts, account), quota, day)
  {
    AccountSeesItsOwnAttempts(accounts, attempts, quota, account, day);
    GrantsAreEarly(DaysOf(attempts, account), quota, day);
  }

  ghost predicate WithinQuota(accounts: Accounts, attempts: seq<Attempt>, quota: int, account: nat) {
    forall day :: GrantedTo(accounts, attempts, quota, account, day) <= quota
  }

  ghost predicate EarlyWithinQuota(days: seq<int>, quota: int) {
    forall day :: Early(days, quota, day) <= quota
  }

  /** For any interleaving and any clocks, an account keeps to the quota on every day exactly when the
      early attempts on that day, over all its stretches, do. */
  lemma QuotaHoldsExactly(accounts: Accounts, attempts: seq<Attempt>, quota: int, account: nat)
    requires account in accounts && accounts[account] == UNUSED
    ensures WithinQuota(accounts, attempts, quota, account) <==> EarlyWithinQuota(DaysOf(attempts, account), quota)
  {
    var days := DaysOf(attempts, account);
    if WithinQuota(accounts, attempts, quota, account) {
      forall day
        ensures Early(days, quota, day) <= quota
      {
        GrantsToAccountAreEarly(accounts, attempts, quota, account, day);
      }
    } else {
      var day :| GrantedTo(accounts, attempts, quota, account, day) > quota;
      GrantsToAccountAreEarly(accounts, attempts, quota, account, day);
      assert Early(days, quota, day) > quota;
    }
  }

  /** A worker alone, reading a due list and reserving on the day it was read for, is never refused:
      the accounts are distinct and each still has a slot. */
  lemma {:induction false} AloneEveryDueAccountIsGranted(
      accounts: Accounts, due: seq<nat>, worker: nat, day: int, quota: int, i: nat)
    requires Distinct(due) && i < |due|
    requires forall k :: 0 <= k < |due| ==> due[k] in accounts && UsedOn(accounts[due[k]], day) < quota
    ensures StepGrants(Run(accounts, Attempts(due[..i], worker, day), quota), Attempt(worker, due[i], day), quota)
  {
    UntouchedAccount(accounts, due[..i], worker, day, quota, due[i]);
  }

  function Attempts(due: seq<nat>, worker: nat, day: int): seq<Attempt> {
    if due == [] then []
    else Attempts(due[..|due| - 1], worker, day) + [Attempt(worker, due[|due| - 1], day)]
  }

  lemma {:induction false} UntouchedAccount(
      accounts: Accounts, due: seq<nat>, worker: nat, day: int, quota: int, account: nat)
    requires account in accounts && account !in due
    ensures account in Run(accounts, Attempts(due, worker, day), quota)
    ensures Run(accounts, Attempts(due, worker, day), quota)[account] == accounts[account]
  {
    if due != [] {
      var (init, last) := (due[..|due| - 1], due[|due| - 1]);
      UntouchedAccount(accounts, init, worker, day, quota, account);
      var all := Attempts(due, worker, day);
      assert all[..|all| - 1] == Attempts(init, worker, day);
    }
  }
}
