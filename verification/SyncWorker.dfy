/** One cycle of the synchronisation worker: the due accounts in turn, each reserving its slot, fetching
    balances then transactions, publishing events and filling the report. What the outside answers
    (database, bank, other workers) is given per account. */
module SyncWorker {
  import opened Wrappers

  datatype ConsentStatus = Pending | Active | Expired | Revoked | Failed

  datatype DueAccount = DueAccount(account: nat, owner: nat, consent: nat, status: ConsentStatus, expires: Option<int>)

  datatype SourceError = InvalidConsent | OtherFailure

  datatype Reply<+T> = Answer(value: T) | Failure(error: SourceError)

  datatype Saving = Stored | AlreadyKnown | NotSaved

  datatype Reservation = SlotTaken | QuotaReached | ReservationFailed

  /** The answers met while one account is synchronised. */
  datatype Answers = Answers(
    consentMarked: bool, reservation: Reservation,
    balances: Reply<seq<bool>>, transactions: Reply<seq<Saving>>)

  datatype Event =
    | SyncStarted(owner: nat, account: nat)
    | SyncSucceeded(owner: nat, account: nat, count: nat)
    | SyncFailed(owner: nat, account: nat)
    | AccountTransactions(owner: nat, account: nat, count: nat)
    | BalanceUpdated(owner: nat, account: nat)
    | ConsentRenewalRequired(owner: nat)
    | ConsentExpired(owner: nat)

  datatype Report = Report(
    evaluated: nat, synchronised: nat, skipped: nat, expired: nat,
    inserted: nat, duplicates: nat, balances: nat)

  const EMPTY_REPORT := Report(0, 0, 0, 0, 0, 0, 0)

  datatype Settings = Settings(now: int, renewalMargin: int)

  datatype Fetched = Fetched(inserted: nat, balanceUpdated: bool)

  predicate ConsentIsExpired(d: DueAccount, s: Settings) {
    d.status != Active || (d.expires.Some? && d.expires.value <= s.now)
  }

  predicate RenewalRequired(d: DueAccount, s: Settings) {
    d.expires.Some? && s.now < d.expires.value <= s.now + s.renewalMargin
  }

  // ----- What one account yields

  function CountSaved(saves: seq<bool>): nat {
    if saves == [] then 0 else CountSaved(saves[..|saves| - 1]) + if saves[|saves| - 1] then 1 else 0
  }

  function CountOf(savings: seq<Saving>, kind: Saving): nat {
    if savings == [] then 0
    else CountOf(savings[..|savings| - 1], kind) + if savings[|savings| - 1] == kind then 1 else 0
  }

  /** The bank is asked for transactions only once balances were answered. */
  function FetchOutcome(a: Answers): Reply<Fetched> {
    if a.balances.Failure? then Failure(a.balances.error)
    else if a.transactions.Failure? then Failure(a.transactions.error)
    else Answer(Fetched(CountOf(a.transactions.value, Stored), CountSaved(a.balances.value) > 0))
  }

  function ReportOfFetch(r: Report, a: Answers): Report {
    if a.balances.Failure? then r
    else
      var b := r.(balances := r.balances + CountSaved(a.balances.value));
      if a.transactions.Failure? then b
      else b.(inserted := b.inserted + CountOf(a.transactions.value, Stored),
              duplicates := b.duplicates + CountOf(a.transactions.value, AlreadyKnown))
  }

  datatype Fate = ExpiredBeforeSlot | SkippedByQuota | Synchronised(count: nat) | FailedSync(consentInvalid: bool) | Aborted

  /** What becomes of an account. */
  function FateOf(d: DueAccount, a: Answers, s: Settings): Fate {
    if ConsentIsExpired(d, s) then
      if a.consentMarked then ExpiredBeforeSlot else Aborted
    else match a.reservation
      case ReservationFailed => Aborted
      case QuotaReached => SkippedByQuota
      case SlotTaken =>
        match FetchOutcome(a)
        case Answer(f) => Synchronised(f.inserted)
        case Failure(OtherFailure) => FailedSync(false)
        case Failure(InvalidConsent) => if a.consentMarked then FailedSync(true) else Aborted
  }

  function OpeningEvents(d: DueAccount, s: Settings): seq<Event> {
    [SyncStarted(d.owner, d.account)]
    + if RenewalRequired(d, s) then [ConsentRenewalRequired(d.owner)] else []
  }

  function SuccessEvents(d: DueAccount, f: Fetched): seq<Event> {
    (if f.balanceUpdated then [BalanceUpdated(d.owner, d.account)] else [])
    + [AccountTransactions(d.owner, d.account, f.inserted), SyncSucceeded(d.owner, d.account, f.inserted)]
  }

  function FailureEvents(d: DueAccount, error: SourceError, marked: bool): seq<Event> {
    [SyncFailed(d.owner, d.account)]
    + if error == InvalidConsent && marked then [ConsentExpired(d.owner)] else []
  }

  function EventsOf(d: DueAccount, a: Answers, s: Settings): seq<Event> {
    if ConsentIsExpired(d, s) then
      if a.consentMarked then [ConsentExpired(d.owner)] else []
    else if !a.reservation.SlotTaken? then
      []
    else
      OpeningEvents(d, s)
      + match FetchOutcome(a)
        case Answer(f) => SuccessEvents(d, f)
        case Failure(error) => FailureEvents(d, error, a.consentMarked)
  }

  function ReportAfter(r: Report, d: DueAccount, a: Answers, s: Settings): Report {
    if ConsentIsExpired(d, s) then
      if a.consentMarked then r.(expired := r.expired + 1) else r
    else match a.reservation
      case ReservationFailed => r
      case QuotaReached => r.(skipped := r.skipped + 1)
      case SlotTaken =>
        var f := ReportOfFetch(r, a);
        match FetchOutcome(a)
        case Answer(_) => f.(synchronised := f.synchronised + 1)
        case Failure(OtherFailure) => f
        case Failure(InvalidConsent) => if a.consentMarked then f.(expired := f.expired + 1) else f
  }

  // ----- A cycle, up to the first database failure

  datatype Visit = Visit(due: DueAccount, answers: Answers)

  predicate Aborts(v: Visit, s: Settings) {
    FateOf(v.due, v.answers, s) == Aborted
  }

  function CycleEvents(visits: seq<Visit>, s: Settings): seq<Event> {
    if visits == [] then []
    else
      EventsOf(visits[0].due, visits[0].answers, s)
      + if Aborts(visits[0], s) then [] else CycleEvents(visits[1..], s)
  }

  function CycleReport(r: Report, visits: seq<Visit>, s: Settings): Report
    decreases |visits|
  {
    if visits == [] then r
    else
      var after := ReportAfter(r.(evaluated := r.evaluated + 1), visits[0].due, visits[0].answers, s);
      if Aborts(visits[0], s) then after else CycleReport(after, visits[1..], s)
  }

  predicate Completes(visits: seq<Visit>, s: Settings) {
    forall i :: 0 <= i < |visits| ==> !Aborts(visits[i], s)
  }

  // ----- The worker

  class Worker {
    const settings: Settings
    var report: Report
    var trace: seq<Event>

    constructor (settings: Settings)
      ensures this.settings == settings && report == EMPTY_REPORT && trace == []
    {
      this.settings := settings;
      report := EMPTY_REPORT;
      trace := [];
    }

    method Publish(e: Event)
      modifies this`trace
      ensures trace == old(trace) + [e]
    {
      trace := trace + [e];
    }

    method FetchData(a: Answers) returns (outcome: Reply<Fetched>)
      modifies this`report
      ensures outcome == FetchOutcome(a)
      ensures report == ReportOfFetch(old(report), a)
    {
      var fetched := Fetched(0, false);
      if a.balances.Failure? {
        return Failure(a.balances.error);
      }
      var saves := a.balances.value;
      for i := 0 to |saves|
        invariant report == old(report).(balances := old(report).balances + CountSaved(saves[..i]))
        invariant fetched == Fetched(0, CountSaved(saves[..i]) > 0)
      {
        assert saves[..i + 1][..i] == saves[..i];
        if saves[i] {
          report := report.(balances := report.balances + 1);
          fetched := fetched.(balanceUpdated := true);
        }
      }
      assert saves[..|saves|] == saves;
      if a.transactions.Failure? {
        return Failure(a.transactions.error);
      }
      ghost var before := report;
      var savings := a.transactions.value;
      for i := 0 to |savings|
        invariant report == before.(
          inserted := before.inserted + CountOf(savings[..i], Stored),
          duplicates := before.duplicates + CountOf(savings[..i], AlreadyKnown))
        invariant fetched == Fetched(CountOf(savings[..i], Stored), CountSaved(saves) > 0)
      {
        assert savings[..i + 1][..i] == savings[..i];
        match savings[i] {
          case Stored =>
            report := report.(inserted := report.inserted + 1);
            fetched := fetched.(inserted := fetched.inserted + 1);
          case AlreadyKnown =>
            report := report.(duplicates := report.duplicates + 1);
          case NotSaved =>
        }
      }
      assert savings[..|savings|] == savings;
      outcome := Answer(fetched);
    }

    method PublishSuccess(d: DueAccount, f: Fetched)
      modifies this`trace
      ensures trace == old(trace) + SuccessEvents(d, f)
    {
      if f.balanceUpdated {
        Publish(BalanceUpdated(d.owner, d.account));
      }
      Publish(AccountTransactions(d.owner, d.account, f.inserted));
      Publish(SyncSucceeded(d.owner, d.account, f.inserted));
    }

    /** Answers false when the database could not mark the consent. */
    method HandleFailure(d: DueAccount, error: SourceError, marked: bool) returns (ok: bool)
      modifies this
      ensures ok == !(error == InvalidConsent && !marked)
      ensures trace == old(trace) + if error == InvalidConsent && marked then [ConsentExpired(d.owner)] else []
      ensures report == if error == InvalidConsent && marked
                        then old(report).(expired := old(report).expired + 1) else old(report)
    {
      if error == InvalidConsent {
        if !marked {
          return false;
        }
        report := report.(expired := report.expired + 1);
        Publish(ConsentExpired(d.owner));
      }
      ok := true;
    }

    method SyncAccount(d: DueAccount, a: Answers) returns (ok: bool)
      modifies this
      ensures ok == (FateOf(d, a, settings) != Aborted)
      ensures trace == old(trace) + EventsOf(d, a, settings)
      ensures report == ReportAfter(old(report), d, a, settings)
    {
      if ConsentIsExpired(d, settings) {
        if !a.consentMarked {
          return false;
        }
        report := report.(expired := report.expired + 1);
        Publish(ConsentExpired(d.owner));
        return true;
      }
      if a.reservation == ReservationFailed {
        return false;
      }
      if a.reservation == QuotaReached {
        report := report.(skipped := report.skipped + 1);
        return true;
      }
      Publish(SyncStarted(d.owner, d.account));
      if RenewalRequired(d, settings) {
        Publish(ConsentRenewalRequired(d.owner));
      }
      var outcome := FetchData(a);
      match outcome {
        case Answer(f) =>
          PublishSuccess(d, f);
          report := report.(synchronised := report.synchronised + 1);
          ok := true;
        case Failure(error) =>
          Publish(SyncFailed(d.owner, d.account));
          ok := HandleFailure(d, error, a.consentMarked);
      }
    }

    /** Visits the due accounts in order; stops at the first database failure. */
    method Execute(visits: seq<Visit>) returns (ok: bool)
      modifies this
      ensures ok == Completes(visits, settings)
      ensures trace == old(trace) + CycleEvents(visits, settings)
      ensures report == CycleReport(EMPTY_REPORT, visits, settings)
    {
      report := EMPTY_REPORT;
      var i := 0;
      assert visits[0..] == visits;
      while i < |visits|
        invariant 0 <= i <= |visits|
        invariant forall k :: 0 <= k < i ==> !Aborts(visits[k], settings)
        invariant Rest(trace, report, visits[i..], settings) == Rest(old(trace), EMPTY_REPORT, visits, settings)
      {
        assert visits[i..][0] == visits[i] && visits[i..][1..] == visits[i + 1..];
        RestUnfolds(trace, report, visits[i..], settings);
        report := report.(evaluated := report.evaluated + 1);
        var done := SyncAccount(visits[i].due, visits[i].answers);
        if !done {
          assert Aborts(visits[i], settings);
          return false;
        }
        i := i + 1;
      }
      assert visits[i..] == [] && trace + [] == trace;
      ok := true;
    }
  }

  /** Trace and report once the visits left have been made. */
  ghost function Rest(trace: seq<Event>, r: Report, visits: seq<Visit>, s: Settings): (seq<Event>, Report) {
    (trace + CycleEvents(visits, s), CycleReport(r, visits, s))
  }

  lemma Regroup(a: seq<Event>, b: seq<Event>, c: seq<Event>)
    ensures a + (b + c) == (a + b) + c
    ensures b + [] == b
  {
  }

  lemma RestUnfolds(trace: seq<Event>, r: Report, rest: seq<Visit>, s: Settings)
    requires rest != []
    ensures var (d, a) := (rest[0].due, rest[0].answers);
      var (t, q) := (trace + EventsOf(d, a, s), ReportAfter(r.(evaluated := r.evaluated + 1), d, a, s));
      Rest(trace, r, rest, s) == if Aborts(rest[0], s) then (t, q) else Rest(t, q, rest[1..], s)
  {
    Regroup(trace, EventsOf(rest[0].due, rest[0].answers, s), CycleEvents(rest[1..], s));
  }
}
