/** The quota seen from the trace: however the cycles of any number of workers interleave, an account does
    not start more synchronisations a day than the quota allows. */
module SyncQuotaLaws {
  import opened Quota
  import opened QuotaLaws
  import opened SyncLaws
  import opened SyncWorker

  /** One account visited by one worker, in the course of a cycle with its own clock. */
  datatype Turn = Turn(worker: nat, visit: Visit, settings: Settings)

  function EventsOfTurn(t: Turn): seq<Event> {
    EventsOf(t.visit.due, t.visit.answers, t.settings)
  }

  function AttemptOf(t: Turn): Attempt {
    Attempt(t.worker, t.visit.due.account, DayOf(t.settings.now))
  }

  /** The turn asks for a slot, and the database serves the request. */
  predicate Asks(t: Turn) {
    !ConsentIsExpired(t.visit.due, t.settings) && t.visit.answers.reservation != ReservationFailed
  }

  /** The requests of the turns, in the order the database serves them. */
  function AttemptsOf(turns: seq<Turn>): seq<Attempt> {
    if turns == [] then []
    else AttemptsOf(turns[..|turns| - 1]) + if Asks(turns[|turns| - 1]) then [AttemptOf(turns[|turns| - 1])] else []
  }

  /** The answer a worker gets is that of the stored row when its request is served. */
  ghost predicate AnsweredFrom(accounts: Accounts, turns: seq<Turn>, quota: int) {
    forall i :: 0 <= i < |turns| && Asks(turns[i]) ==>
      (turns[i].visit.answers.reservation == SlotTaken <==>
       StepGrants(Run(accounts, AttemptsOf(turns[..i]), quota), AttemptOf(turns[i]), quota))
  }

  function StartOf(account: nat): Weight {
    (e: Event) => if e.SyncStarted? && e.account == account then 1 else 0
  }

  /** Synchronisations of an account that the turns of a day start. */
  function Starts(turns: seq<Turn>, account: nat, day: int): nat {
    if turns == [] then 0
    else
      var last := turns[|turns| - 1];
      Starts(turns[..|turns| - 1], account, day)
      + if DayOf(last.settings.now) == day then Sum(EventsOfTurn(last), StartOf(account)) else 0
  }

  lemma StartsOfTurn(t: Turn, account: nat)
    ensures Sum(EventsOfTurn(t), StartOf(account)) ==
      if Asks(t) && t.visit.answers.reservation == SlotTaken && t.visit.due.account == account then 1 else 0
  {
    var (d, a, s) := (t.visit.due, t.visit.answers, t.settings);
    if ConsentIsExpired(d, s) {
      SumOne(ConsentExpired(d.owner), StartOf(account));
    } else if a.reservation.SlotTaken? {
      SlotSum(d, a, s, StartOf(account));
    }
  }

  lemma AnsweredBefore(accounts: Accounts, init: seq<Turn>, last: Turn, quota: int)
    requires AnsweredFrom(accounts, init + [last], quota)
    ensures AnsweredFrom(accounts, init, quota)
    ensures Asks(last) ==>
      (last.visit.answers.reservation == SlotTaken <==>
       StepGrants(Run(accounts, AttemptsOf(init), quota), AttemptOf(last), quota))
  {
    var turns := init + [last];
    assert turns[|init|] == last && turns[..|init|] == init;
    forall i | 0 <= i < |init| && Asks(init[i])
      ensures init[i].visit.answers.reservation == SlotTaken <==>
        StepGrants(Run(accounts, AttemptsOf(init[..i]), quota), AttemptOf(init[i]), quota)
    {
      assert turns[i] == init[i] && turns[..i] == init[..i];
    }
  }

  lemma OneMoreGrant(accounts: Accounts, before: seq<Attempt>, a: Attempt, quota: int, account: nat, day: int)
    ensures GrantedTo(accounts, before + [a], quota, account, day) == GrantedTo(accounts, before, quota, account, day)
      + if a.account == account && a.day == day && StepGrants(Run(accounts, before, quota), a, quota) then 1 else 0
  {
    assert (before + [a])[..|before|] == before;
  }

  /** The starts in the trace are the slots granted. */
  lemma {:induction false} StartsAreGrants(accounts: Accounts, turns: seq<Turn>, quota: int, account: nat, day: int)
    requires AnsweredFrom(accounts, turns, quota)
    ensures Starts(turns, account, day) == GrantedTo(accounts, AttemptsOf(turns), quota, account, day)
  {
    if turns != [] {
      var (init, last) := (turns[..|turns| - 1], turns[|turns| - 1]);
      assert turns == init + [last];
      AnsweredBefore(accounts, init, last, quota);
      StartsAreGrants(accounts, init, quota, account, day);
      StartsOfTurn(last, account);
      if Asks(last) {
        OneMoreGrant(accounts, AttemptsOf(init), AttemptOf(last), quota, account, day);
      } else {
        assert AttemptsOf(turns) == AttemptsOf(init);
      }
    }
  }

  /** Over any interleaving of any cycles, as long as the days on which an account is asked for never go
      back, its starts on one day number at most the quota. */
  lemma StartsWithinQuota(accounts: Accounts, turns: seq<Turn>, quota: int, account: nat, day: int)
    requires account in accounts && accounts[account] == UNUSED
    requires AnsweredFrom(accounts, turns, quota)
    requires NeverGoesBack(DaysOf(AttemptsOf(turns), account))
    ensures Starts(turns, account, day) <= if quota >= 0 then quota else 0
  {
    StartsAreGrants(accounts, turns, quota, account, day);
    QuotaIsSafe(accounts, AttemptsOf(turns), quota, account, day);
  }
}
