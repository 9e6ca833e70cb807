/** The daily quota of synchronisation slots: one conditional update per reservation, whoever asks. */
module Quota {
  import opened Wrappers

  const SECONDS_PER_DAY := 86400

  datatype Plan = Plan(nextSync: int, day: int, lastSync: int)

  function DayOf(instant: int): int {
    instant / SECONDS_PER_DAY
  }

  /** The two columns that count the slots of an account. */
  datatype Slots = Slots(count: int, lastDay: Option<int>)

  const UNUSED := Slots(0, None)

  /** Slots already taken on a day, as the stored row tells it. */
  function UsedOn(s: Slots, day: int): int {
    if s.lastDay == Some(day) then s.count else 0
  }

  function Grants(s: Slots, day: int, quota: int): bool {
    UsedOn(s, day) < quota
  }

  function Reserve(s: Slots, day: int, quota: int): Slots {
    if Grants(s, day, quota) then Slots(UsedOn(s, day) + 1, Some(day)) else s
  }

  class BankAccount {
    var nextSync: Option<int>
    var lastSync: Option<int>
    var count: int
    var lastDay: Option<int>

    constructor ()
      ensures Taken() == UNUSED && nextSync == None && lastSync == None
    {
      nextSync, lastSync, count, lastDay := None, None, 0, None;
    }

    function Taken(): Slots
      reads this
    {
      Slots(count, lastDay)
    }

    /** Takes a slot of the plan's day if one is left; otherwise changes nothing. */
    method ReserveSlot(plan: Plan, quota: int) returns (granted: bool)
      modifies this
      ensures granted == Grants(old(Taken()), plan.day, quota)
      ensures Taken() == Reserve(old(Taken()), plan.day, quota)
      ensures nextSync == if granted then Some(plan.nextSync) else old(nextSync)
      ensures lastSync == if granted then Some(plan.lastSync) else old(lastSync)
    {
      var used := if lastDay == Some(plan.day) then count else 0;
      granted := used < quota;
      if granted {
        nextSync := Some(plan.nextSync);
        count := if lastDay == Some(plan.day) then count + 1 else 1;
        lastDay := Some(plan.day);
        lastSync := Some(plan.lastSync);
      }
    }
  }

  // ----- Reservations on one account, in the order the database serves them

  function Served(s: Slots, days: seq<int>, quota: int): Slots {
    if days == [] then s
    else Reserve(Served(s, days[..|days| - 1], quota), days[|days| - 1], quota)
  }

  /** How many reservations for `day` were granted. */
  function GrantedOn(s: Slots, days: seq<int>, quota: int, day: int): nat {
    if days == [] then 0
    else
      var (init, last) := (days[..|days| - 1], days[|days| - 1]);
      GrantedOn(s, init, quota, day)
      + if last == day && Grants(Served(s, init, quota), last, quota) then 1 else 0
  }

  // ----- Any interleaving of workers on any accounts

  datatype Attempt = Attempt(worker: nat, account: nat, day: int)

  type Accounts = map<nat, Slots>

  function Step(accounts: Accounts, a: Attempt, quota: int): Accounts {
    if a.account in accounts
    then accounts[a.account := Reserve(accounts[a.account], a.day, quota)] else accounts
  }

  function Run(accounts: Accounts, attempts: seq<Attempt>, quota: int): Accounts {
    if attempts == [] then accounts
    else Step(Run(accounts, attempts[..|attempts| - 1], quota), attempts[|attempts| - 1], quota)
  }

  function StepGrants(accounts: Accounts, a: Attempt, quota: int): bool {
    a.account in accounts && Grants(accounts[a.account], a.day, quota)
  }

  /** Slots granted to an account on a day, over a whole run. */
  function GrantedTo(accounts: Accounts, attempts: seq<Attempt>, quota: int, account: nat, day: int): nat {
    if attempts == [] then 0
    else
      var (init, last) := (attempts[..|attempts| - 1], attempts[|attempts| - 1]);
      GrantedTo(accounts, init, quota, account, day)
      + if last.account == account && last.day == day && StepGrants(Run(accounts, init, quota), last, quota)
        then 1 else 0
  }

  function DaysOf(attempts: seq<Attempt>, account: nat): seq<int> {
    if attempts == [] then []
    else
      var last := attempts[|attempts| - 1];
      DaysOf(attempts[..|attempts| - 1], account) + if last.account == account then [last.day] else []
  }

  // ----- The due list

  datatype Consent = Consent(active: bool, expires: Option<int>)

  /** The condition under which an account is listed for synchronisation. */
  predicate Due(s: Slots, nextSync: Option<int>, consent: Consent, now: int, quota: int) {
    && (nextSync.None? || nextSync.value <= now)
    && consent.active
    && (consent.expires.None? || consent.expires.value > now)
    && UsedOn(s, DayOf(now)) < quota
  }
}
