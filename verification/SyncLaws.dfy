/** The events published by a cycle and the report it fills tell the same story. */
module SyncLaws {
  import opened SyncWorker
  import opened Quota
  import opened QuotaLaws
  import opened Ordering
  import opened Wrappers

  // ----- The grammar of a trace

  /** Where a reader of the trace stands: between accounts, inside one, or inside one whose count was
      announced. */
  datatype Phase = Idle | Opened(account: nat) | Counted(account: nat, count: nat) | Broken

  function Next(p: Phase, e: Event): Phase {
    match p
    case Idle =>
      if e.SyncStarted? then Opened(e.account) else if e.ConsentExpired? then Idle else Broken
    case Opened(a) =>
      if e.ConsentRenewalRequired? then p
      else if e.BalanceUpdated? && e.account == a then p
      else if e.AccountTransactions? && e.account == a then Counted(a, e.count)
      else if e.SyncFailed? && e.account == a then Idle
      else Broken
    case Counted(a, n) =>
      if e.SyncSucceeded? && e.account == a && e.count == n then Idle else Broken
    case Broken => Broken
  }

  function After(p: Phase, events: seq<Event>): Phase
    decreases |events|
  {
    if events == [] then p else After(Next(p, events[0]), events[1..])
  }

  lemma {:induction false} AfterConcat(p: Phase, a: seq<Event>, b: seq<Event>)
    ensures After(p, a + b) == After(After(p, a), b)
    decreases |a|
  {
    if a == [] {
      assert a + b == b;
    } else {
      assert (a + b)[1..] == a[1..] + b;
      AfterConcat(Next(p, a[0]), a[1..], b);
    }
  }

  lemma AfterOne(p: Phase, e: Event)
    ensures After(p, [e]) == Next(p, e)
  {
    assert [e][1..] == [];
  }

  lemma AfterOpening(d: DueAccount, s: Settings)
    ensures After(Idle, OpeningEvents(d, s)) == Opened(d.account)
  {
    var (start, renewal) := (SyncStarted(d.owner, d.account), ConsentRenewalRequired(d.owner));
    AfterOne(Idle, start);
    AfterOne(Opened(d.account), renewal);
    AfterConcat(Idle, [start], [renewal]);
    assert [start] + [] == [start];
  }

  lemma AfterSuccess(d: DueAccount, f: Fetched)
    ensures After(Opened(d.account), SuccessEvents(d, f)) == Idle
  {
    var p := Opened(d.account);
    var (balance, announce, success) :=
      (BalanceUpdated(d.owner, d.account), AccountTransactions(d.owner, d.account, f.inserted),
       SyncSucceeded(d.owner, d.account, f.inserted));
    AfterOne(p, balance);
    AfterOne(p, announce);
    AfterOne(Counted(d.account, f.inserted), success);
    AfterConcat(p, [announce], [success]);
    AfterConcat(p, [balance], [announce, success]);
    assert [announce] + [success] == [announce, success] == [] + [announce, success];
  }

  lemma AfterFailure(d: DueAccount, error: SourceError, marked: bool)
    ensures After(Opened(d.account), FailureEvents(d, error, marked)) == Idle
  {
    var (failed, expired) := (SyncFailed(d.owner, d.account), ConsentExpired(d.owner));
    AfterOne(Opened(d.account), failed);
    AfterOne(Idle, expired);
    AfterConcat(Opened(d.account), [failed], [expired]);
    assert [failed] + [] == [failed];
  }

  /** The events of one account form a closed bracket. */
  lemma AccountCloses(d: DueAccount, a: Answers, s: Settings)
    ensures After(Idle, EventsOf(d, a, s)) == Idle
  {
    if ConsentIsExpired(d, s) {
      AfterOne(Idle, ConsentExpired(d.owner));
    } else if a.reservation.SlotTaken? {
      AfterOpening(d, s);
      match FetchOutcome(a)
      case Answer(f) =>
        AfterSuccess(d, f);
        AfterConcat(Idle, OpeningEvents(d, s), SuccessEvents(d, f));
      case Failure(error) =>
        AfterFailure(d, error, a.consentMarked);
        AfterConcat(Idle, OpeningEvents(d, s), FailureEvents(d, error, a.consentMarked));
    }
  }

  // ----- Counting events

  type Weight = Event -> nat

  function Sum(events: seq<Event>, w: Weight): nat {
    if events == [] then 0 else w(events[0]) + Sum(events[1..], w)
  }

  lemma {:induction false} SumConcat(a: seq<Event>, b: seq<Event>, w: Weight)
    ensures Sum(a + b, w) == Sum(a, w) + Sum(b, w)
  {
    if a == [] {
      assert a + b == b;
    } else {
      assert (a + b)[1..] == a[1..] + b;
      SumConcat(a[1..], b, w);
    }
  }

  function Started(e: Event): nat {
    if e.SyncStarted? then 1 else 0
  }

  function Succeeded(e: Event): nat {
    if e.SyncSucceeded? then 1 else 0
  }

  function FailedEvent(e: Event): nat {
    if e.SyncFailed? then 1 else 0
  }

  function ExpiredEvent(e: Event): nat {
    if e.ConsentExpired? then 1 else 0
  }

  /** The transactions a success announces. */
  function Announced(e: Event): nat {
    if e.SyncSucceeded? then e.count else 0
  }

  lemma SumOne(e: Event, w: Weight)
    ensures Sum([e], w) == w(e) && Sum([], w) == 0
  {
    assert [e][1..] == [];
  }

  lemma OpeningSum(d: DueAccount, s: Settings, w: Weight)
    ensures Sum(OpeningEvents(d, s), w) == w(SyncStarted(d.owner, d.account))
      + if RenewalRequired(d, s) then w(ConsentRenewalRequired(d.owner)) else 0
  {
    SumOne(SyncStarted(d.owner, d.account), w);
    SumOne(ConsentRenewalRequired(d.owner), w);
    SumConcat([SyncStarted(d.owner, d.account)], if RenewalRequired(d, s) then [ConsentRenewalRequired(d.owner)] else [], w);
  }

  lemma SuccessSum(d: DueAccount, f: Fetched, w: Weight)
    ensures Sum(SuccessEvents(d, f), w) == (if f.balanceUpdated then w(BalanceUpdated(d.owner, d.account)) else 0)
      + w(AccountTransactions(d.owner, d.account, f.inserted)) + w(SyncSucceeded(d.owner, d.account, f.inserted))
  {
    var (balance, announce, success) :=
      (BalanceUpdated(d.owner, d.account), AccountTransactions(d.owner, d.account, f.inserted),
       SyncSucceeded(d.owner, d.account, f.inserted));
    SumOne(balance, w);
    SumOne(announce, w);
    SumOne(success, w);
    SumConcat([announce], [success], w);
    assert [announce] + [success] == [announce, success];
    SumConcat(if f.balanceUpdated then [balance] else [], [announce, success], w);
  }

  lemma FailureSum(d: DueAccount, error: SourceError, marked: bool, w: Weight)
    ensures Sum(FailureEvents(d, error, marked), w) == w(SyncFailed(d.owner, d.account))
      + if error == InvalidConsent && marked then w(ConsentExpired(d.owner)) else 0
  {
    SumOne(SyncFailed(d.owner, d.account), w);
    SumOne(ConsentExpired(d.owner), w);
    SumConcat([SyncFailed(d.owner, d.account)], if error == InvalidConsent && marked then [ConsentExpired(d.owner)] else [], w);
  }

  /** The weight of the events of an account, fate by fate, when a slot was taken. */
  lemma SlotSum(d: DueAccount, a: Answers, s: Settings, w: Weight)
    requires !ConsentIsExpired(d, s) && a.reservation.SlotTaken?
    requires w(ConsentRenewalRequired(d.owner)) == 0 && w(BalanceUpdated(d.owner, d.account)) == 0
    requires forall n :: w(AccountTransactions(d.owner, d.account, n)) == 0
    ensures Sum(EventsOf(d, a, s), w) == w(SyncStarted(d.owner, d.account))
      + match FetchOutcome(a)
        case Answer(f) => w(SyncSucceeded(d.owner, d.account, f.inserted))
        case Failure(error) =>
          w(SyncFailed(d.owner, d.account))
          + (if error == InvalidConsent && a.consentMarked then w(ConsentExpired(d.owner)) else 0)
  {
    OpeningSum(d, s, w);
    match FetchOutcome(a)
    case Answer(f) =>
      SuccessSum(d, f, w);
      SumConcat(OpeningEvents(d, s), SuccessEvents(d, f), w);
    case Failure(error) =>
      FailureSum(d, error, a.consentMarked, w);
      SumConcat(OpeningEvents(d, s), FailureEvents(d, error, a.consentMarked), w);
  }

  /** What the report gains, as the trace tells it. */
  ghost predicate Told(before: Report, after: Report, events: seq<Event>) {
    && after.synchronised == before.synchronised + Sum(events, Succeeded)
    && after.expired == before.expired + Sum(events, ExpiredEvent)
    && after.inserted == before.inserted + Sum(events, Announced)
    && Sum(events, Started) == Sum(events, Succeeded) + Sum(events, FailedEvent)
  }

  lemma ToldConcat(a: Report, b: Report, c: Report, t: seq<Event>, u: seq<Event>)
    requires Told(a, b, t) && Told(b, c, u)
    ensures Told(a, c, t + u)
  {
    SumConcat(t, u, Succeeded);
    SumConcat(t, u, ExpiredEvent);
    SumConcat(t, u, Announced);
    SumConcat(t, u, Started);
    SumConcat(t, u, FailedEvent);
  }

  lemma AccountIsTold(r: Report, d: DueAccount, a: Answers, s: Settings)
    ensures Told(r, ReportAfter(r, d, a, s), EventsOf(d, a, s))
  {
    if ConsentIsExpired(d, s) {
      var e := ConsentExpired(d.owner);
      SumOne(e, Succeeded);
      SumOne(e, ExpiredEvent);
      SumOne(e, Announced);
      SumOne(e, Started);
      SumOne(e, FailedEvent);
    } else if a.reservation.SlotTaken? {
      SlotSum(d, a, s, Succeeded);
      SlotSum(d, a, s, ExpiredEvent);
      SlotSum(d, a, s, Announced);
      SlotSum(d, a, s, Started);
      SlotSum(d, a, s, FailedEvent);
    }
  }

  // ----- A cycle

  lemma CycleUnfolds(r: Report, visits: seq<Visit>, s: Settings)
    requires visits != []
    ensures var (d, a, rest) := (visits[0].due, visits[0].answers, visits[1..]);
      var after := ReportAfter(r.(evaluated := r.evaluated + 1), d, a, s);
      && CycleEvents(visits, s) == EventsOf(d, a, s) + (if Aborts(visits[0], s) then [] else CycleEvents(rest, s))
      && CycleReport(r, visits, s) == if Aborts(visits[0], s) then after else CycleReport(after, rest, s)
  {
  }

  /** Over every cycle, cut short or not: each start is closed by exactly one success or failure of the
      same account before the next one opens, and a success repeats the count just announced. */
  lemma {:induction false} TraceIsBracketed(visits: seq<Visit>, s: Settings)
    ensures After(Idle, CycleEvents(visits, s)) == Idle
  {
    if visits != [] {
      var (events, rest) := (EventsOf(visits[0].due, visits[0].answers, s), CycleEvents(visits[1..], s));
      AccountCloses(visits[0].due, visits[0].answers, s);
      TraceIsBracketed(visits[1..], s);
      AfterConcat(Idle, events, rest);
      assert events + [] == events;
    }
  }

  /** Over every cycle, cut short or not, the report counts the successes, the expired consents and the
      inserted transactions of the trace. */
  lemma {:induction false} ReportTellsTheTrace(r: Report, visits: seq<Visit>, s: Settings)
    ensures Told(r, CycleReport(r, visits, s), CycleEvents(visits, s))
    decreases |visits|
  {
    if visits != [] {
      var (d, a, rest) := (visits[0].due, visits[0].answers, visits[1..]);
      var q := r.(evaluated := r.evaluated + 1);
      var after := ReportAfter(q, d, a, s);
      CycleUnfolds(r, visits, s);
      AccountIsTold(q, d, a, s);
      assert EventsOf(d, a, s) + [] == EventsOf(d, a, s);
      if !Aborts(visits[0], s) {
        ReportTellsTheTrace(after, rest, s);
        ToldConcat(q, after, CycleReport(after, rest, s), EventsOf(d, a, s), CycleEvents(rest, s));
      }
    } else {
      assert CycleEvents(visits, s) == [];
    }
  }

  function ExpiredBefore(visits: seq<Visit>, s: Settings): nat {
    if visits == [] then 0
    else ExpiredBefore(visits[1..], s) + if FateOf(visits[0].due, visits[0].answers, s).ExpiredBeforeSlot? then 1 else 0
  }

  /** An account that does not abort falls in exactly one of four classes. */
  lemma AccountIsClassified(r: Report, d: DueAccount, a: Answers, s: Settings)
    requires FateOf(d, a, s) != Aborted
    ensures var q := ReportAfter(r, d, a, s);
      && q.evaluated == r.evaluated
      && (q.synchronised - r.synchronised) + (q.skipped - r.skipped) + Sum(EventsOf(d, a, s), FailedEvent)
         + (if FateOf(d, a, s).ExpiredBeforeSlot? then 1 else 0) == 1
  {
    if ConsentIsExpired(d, s) {
      SumOne(ConsentExpired(d.owner), FailedEvent);
    } else if a.reservation.SlotTaken? {
      SlotSum(d, a, s, FailedEvent);
    }
  }

  /** In a completed cycle every due account is evaluated, and the accounts evaluated are those
      synchronised, refused by the quota, expired before their slot, or failed. */
  lemma {:induction false} EvaluatedAccountsAddUp(r: Report, visits: seq<Visit>, s: Settings)
    requires Completes(visits, s)
    ensures var q := CycleReport(r, visits, s);
      && q.evaluated - r.evaluated == |visits|
      && |visits| == (q.synchronised - r.synchronised) + (q.skipped - r.skipped)
                     + ExpiredBefore(visits, s) + Sum(CycleEvents(visits, s), FailedEvent)
    decreases |visits|
  {
    if visits != [] {
      var (d, a, rest) := (visits[0].due, visits[0].answers, visits[1..]);
      var q := r.(evaluated := r.evaluated + 1);
      CycleUnfolds(r, visits, s);
      assert !Aborts(visits[0], s);
      assert forall i :: 0 <= i < |rest| ==> rest[i] == visits[i + 1];
      AccountIsClassified(q, d, a, s);
      EvaluatedAccountsAddUp(ReportAfter(q, d, a, s), rest, s);
      SumConcat(EventsOf(d, a, s), CycleEvents(rest, s), FailedEvent);
    }
  }

  // ----- A worker alone

  function AccountsOf(visits: seq<Visit>): seq<nat> {
    seq(|visits|, i requires 0 <= i < |visits| => visits[i].due.account)
  }

  /** Every visited account was due when the list was read. */
  ghost predicate AllDue(
      visits: seq<Visit>, accounts: Accounts, planned: map<nat, Option<int>>, s: Settings, quota: int) {
    forall i :: 0 <= i < |visits| ==>
      var d := visits[i].due;
      && d.account in accounts && d.account in planned
      && Due(accounts[d.account], planned[d.account], Consent(d.status == Active, d.expires), s.now, quota)
  }

  /** The database refuses a slot only by the rule of the quota, and no other worker reserves. */
  ghost predicate AnsweredAlone(visits: seq<Visit>, accounts: Accounts, worker: nat, s: Settings, quota: int) {
    forall i :: 0 <= i < |visits| && visits[i].answers.reservation == QuotaReached ==>
      !StepGrants(Run(accounts, Attempts(AccountsOf(visits)[..i], worker, DayOf(s.now)), quota),
                  Attempt(worker, visits[i].due.account, DayOf(s.now)), quota)
  }

  /** A worker alone, on a fresh due list of distinct accounts, skips no account for the quota and meets
      no expired consent before a slot. */
  lemma AloneNothingIsSkipped(
      r: Report, visits: seq<Visit>, accounts: Accounts, planned: map<nat, Option<int>>,
      worker: nat, s: Settings, quota: int)
    requires Distinct(AccountsOf(visits))
    requires AllDue(visits, accounts, planned, s, quota)
    requires AnsweredAlone(visits, accounts, worker, s, quota)
    ensures CycleReport(r, visits, s).skipped == r.skipped
    ensures ExpiredBefore(visits, s) == 0
  {
    var due := AccountsOf(visits);
    forall i | 0 <= i < |visits|
      ensures !ConsentIsExpired(visits[i].due, s) && visits[i].answers.reservation != QuotaReached
    {
      assert due[i] == visits[i].due.account;
      assert forall k :: 0 <= k < |due| ==> due[k] == visits[k].due.account;
      AloneEveryDueAccountIsGranted(accounts, due, worker, DayOf(s.now), quota, i);
    }
    NoneSkipped(r, visits, s);
  }

  lemma {:induction false} NoneSkipped(r: Report, visits: seq<Visit>, s: Settings)
    requires forall i :: 0 <= i < |visits| ==>
      !ConsentIsExpired(visits[i].due, s) && visits[i].answers.reservation != QuotaReached
    ensures CycleReport(r, visits, s).skipped == r.skipped
    ensures ExpiredBefore(visits, s) == 0
    decreases |visits|
  {
    if visits != [] {
      var q := r.(evaluated := r.evaluated + 1);
      NoneSkipped(ReportAfter(q, visits[0].due, visits[0].answers, s), visits[1..], s);
    }
  }
}
