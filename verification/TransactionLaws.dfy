/** What every run of table steps keeps, whatever the interleaving. */
module TransactionLaws {
  import opened Ordering
  import opened Transactions
  import opened Wrappers

  ghost predicate RowInvariant(r: Row) {
    && (r.source == Uncategorised <==> r.category.None?)
    && (r.rule.Some? ==> r.source == ByRule)
    && (r.source == Manual && r.category == Some(INTERNAL_TRANSFERS) ==> r.internal)
  }

  ghost predicate UniqueKeys(t: Table) {
    forall i, j :: i in t && j in t && RowKey(t[i]) == RowKey(t[j]) ==> i == j
  }

  ghost predicate TableInvariant(t: Table) {
    (forall id :: id in t ==> RowInvariant(t[id])) && UniqueKeys(t)
  }

  /** The database never gives an identifier twice. */
  ghost predicate FreshIds(t: Table, owners: Owners, steps: seq<Step>) {
    forall i :: 0 <= i < |steps| && steps[i].Deliver? ==> steps[i].delivery.newId !in Run(t, owners, steps[..i])
  }

  /** What the bank said of a row stays; a booked row stays booked. */
  ghost predicate SameFacts(before: Row, after: Row) {
    && RowKey(after) == RowKey(before)
    && after.words == before.words
    && after.cents == before.cents
    && (before.status == Booked ==>
          after.status == Booked && after.booking == before.booking && after.value == before.value)
  }

  ghost predicate Grows(before: Table, after: Table) {
    forall id :: id in before ==> id in after && SameFacts(before[id], after[id])
  }

  lemma StepGrows(t: Table, owners: Owners, step: Step)
    requires step.Deliver? ==> step.delivery.newId !in t
    ensures Grows(t, Apply(t, owners, step))
    ensures forall id :: id in Apply(t, owners, step) && id !in t ==>
      step.Deliver? && id == step.delivery.newId && !Known(t, DeliveryKey(step.delivery))
      && Apply(t, owners, step)[id] == NewRow(step.delivery)
  {
    match step
    case Deliver(_) =>
    case RuleOnRow(_, _, _) =>
    case RuleOnBatch(_, _) =>
    case FileByHand(_, _, _, _) =>
    case Reset(_) =>
    case Mark(_, _) =>
    case DefaultOnBatch(_, _, _) =>
  }

  lemma StepKeepsRows(t: Table, owners: Owners, step: Step)
    requires forall id :: id in t ==> RowInvariant(t[id])
    ensures forall id :: id in Apply(t, owners, step) ==> RowInvariant(Apply(t, owners, step)[id])
  {
  }

  lemma StepKeeps(t: Table, owners: Owners, step: Step)
    requires TableInvariant(t)
    requires step.Deliver? ==> step.delivery.newId !in t
    ensures TableInvariant(Apply(t, owners, step))
    ensures Grows(t, Apply(t, owners, step))
  {
    var u := Apply(t, owners, step);
    StepGrows(t, owners, step);
    StepKeepsRows(t, owners, step);
    forall i, j | i in u && j in u && RowKey(u[i]) == RowKey(u[j])
      ensures i == j
    {
      assert i in t ==> RowKey(u[i]) == RowKey(t[i]);
      assert j in t ==> RowKey(u[j]) == RowKey(t[j]);
    }
  }

  lemma {:induction false} FreshPrefix(t: Table, owners: Owners, steps: seq<Step>)
    requires FreshIds(t, owners, steps) && steps != []
    ensures FreshIds(t, owners, steps[..|steps| - 1])
  {
    var init := steps[..|steps| - 1];
    forall i | 0 <= i < |init| && init[i].Deliver?
      ensures init[i].delivery.newId !in Run(t, owners, init[..i])
    {
      assert init[..i] == steps[..i];
    }
  }

  /** Over every run: a row without category is exactly one without source, only rules leave a rule
      identifier, a row filed by hand under the system category is marked, one row per key, and no
      row is lost or rewritten. */
  lemma {:induction false} RunKeepsInvariant(t: Table, owners: Owners, steps: seq<Step>)
    requires TableInvariant(t) && FreshIds(t, owners, steps)
    ensures TableInvariant(Run(t, owners, steps))
    ensures Grows(t, Run(t, owners, steps))
  {
    if steps != [] {
      var init := steps[..|steps| - 1];
      FreshPrefix(t, owners, steps);
      RunKeepsInvariant(t, owners, init);
      StepKeeps(Run(t, owners, init), owners, steps[|steps| - 1]);
    }
  }

  ghost predicate Files(step: Step, id: nat) {
    step.FileByHand? && step.id == id
  }

  /** What the owner decided by hand about a row. */
  ghost predicate SameDecision(r: Row, s: Row) {
    && r.source == Manual && s.source == Manual
    && s.category == r.category
    && s.rule == r.rule
    && (r.category == Some(INTERNAL_TRANSFERS) && r.internal ==> s.internal)
  }

  lemma StepKeepsDecision(t: Table, owners: Owners, step: Step, id: nat)
    requires id in t && t[id].source == Manual
    requires !Files(step, id)
    requires step.Deliver? ==> step.delivery.newId !in t
    ensures id in Apply(t, owners, step) && SameDecision(t[id], Apply(t, owners, step)[id])
  {
  }

  /** A row filed by hand keeps its category and its source until it is filed by hand again; under
      the system category it also stays marked. */
  lemma {:induction false} RunKeepsDecision(t: Table, owners: Owners, steps: seq<Step>, id: nat)
    requires id in t && t[id].source == Manual
    requires FreshIds(t, owners, steps)
    requires forall i :: 0 <= i < |steps| ==> !Files(steps[i], id)
    ensures id in Run(t, owners, steps) && SameDecision(t[id], Run(t, owners, steps)[id])
  {
    if steps != [] {
      var init := steps[..|steps| - 1];
      FreshPrefix(t, owners, steps);
      RunKeepsDecision(t, owners, init, id);
      assert !Files(steps[|steps| - 1], id);
      StepKeepsDecision(Run(t, owners, init), owners, steps[|steps| - 1], id);
    }
  }

  /** Deliveries, replayed or not, never touch the categorisation of a row. */
  lemma {:induction false} DeliveriesKeepCategorisation(t: Table, owners: Owners, steps: seq<Step>)
    requires FreshIds(t, owners, steps)
    requires forall i :: 0 <= i < |steps| ==> steps[i].Deliver?
    ensures forall id :: id in t ==> id in Run(t, owners, steps)
    ensures forall id :: id in t ==>
      var r := Run(t, owners, steps)[id]; r == t[id].(status := r.status, booking := r.booking, value := r.value)
  {
    if steps != [] {
      FreshPrefix(t, owners, steps);
      DeliveriesKeepCategorisation(t, owners, steps[..|steps| - 1]);
    }
  }

  // ----- Deliveries

  function Ingest(ds: seq<Delivery>): Table {
    if ds == [] then map[] else Upsert(Ingest(ds[..|ds| - 1]), ds[|ds| - 1])
  }

  function Outcomes(ds: seq<Delivery>): seq<InsertOutcome> {
    if ds == [] then []
    else Outcomes(ds[..|ds| - 1]) + [OutcomeOfUpsert(Ingest(ds[..|ds| - 1]), ds[|ds| - 1])]
  }

  ghost predicate DistinctNewIds(ds: seq<Delivery>) {
    forall i, j :: 0 <= i < j < |ds| ==> ds[i].newId != ds[j].newId
  }

  ghost predicate Delivered(ds: seq<Delivery>, key: Key) {
    exists i :: 0 <= i < |ds| && DeliveryKey(ds[i]) == key
  }

  ghost predicate DeliveredBooked(ds: seq<Delivery>, key: Key) {
    exists i :: 0 <= i < |ds| && DeliveryKey(ds[i]) == key && ds[i].status == Booked
  }

  ghost predicate FirstFor(ds: seq<Delivery>, i: int, key: Key) {
    && 0 <= i < |ds| && DeliveryKey(ds[i]) == key
    && forall j :: 0 <= j < i ==> DeliveryKey(ds[j]) != key
  }

  ghost predicate FirstBookedFor(ds: seq<Delivery>, i: int, key: Key) {
    && 0 <= i < |ds| && DeliveryKey(ds[i]) == key && ds[i].status == Booked
    && forall j :: 0 <= j < i ==> DeliveryKey(ds[j]) != key || ds[j].status != Booked
  }

  /** What the row of a key must be after deliveries, said without replaying them: label and amount
      of the first one; booked when one of them was, with the dates of the first booked one. */
  ghost predicate RowOfDeliveries(r: Row, ds: seq<Delivery>, key: Key) {
    && RowKey(r) == key
    && (exists i {:trigger FirstFor(ds, i, key)} ::
          FirstFor(ds, i, key) && r.words == ds[i].words && r.cents == ds[i].cents
          && (!DeliveredBooked(ds, key) ==> r.booking == ds[i].booking && r.value == ds[i].value))
    && (r.status == Booked <==> DeliveredBooked(ds, key))
    && (DeliveredBooked(ds, key) ==>
          exists i {:trigger FirstBookedFor(ds, i, key)} ::
            FirstBookedFor(ds, i, key) && r.booking == ds[i].booking && r.value == ds[i].value)
    && r.category.None? && r.source == Uncategorised && r.rule.None? && !r.internal
  }

  lemma FirstStaysFirst(init: seq<Delivery>, d: Delivery, key: Key)
    ensures forall i :: FirstFor(init, i, key) ==> FirstFor(init + [d], i, key)
    ensures forall i :: FirstBookedFor(init, i, key) ==> FirstBookedFor(init + [d], i, key)
    ensures DeliveredBooked(init + [d], key) <==>
      DeliveredBooked(init, key) || (DeliveryKey(d) == key && d.status == Booked)
    ensures Delivered(init + [d], key) <==> Delivered(init, key) || DeliveryKey(d) == key
  {
    var ds := init + [d];
    assert forall i :: 0 <= i < |init| ==> ds[i] == init[i];
    assert ds[|init|] == d;
    if DeliveredBooked(init, key) {
      var i :| 0 <= i < |init| && DeliveryKey(init[i]) == key && init[i].status == Booked;
      assert DeliveryKey(ds[i]) == key && ds[i].status == Booked;
    }
    if Delivered(init, key) {
      var i :| 0 <= i < |init| && DeliveryKey(init[i]) == key;
      assert DeliveryKey(ds[i]) == key;
    }
  }

  lemma OneMoreDelivery(r: Row, init: seq<Delivery>, d: Delivery, key: Key)
    requires RowOfDeliveries(r, init, key)
    ensures RowOfDeliveries(if DeliveryKey(d) == key then Merged(r, d) else r, init + [d], key)
  {
    var ds := init + [d];
    FirstStaysFirst(init, d, key);
    var i :| FirstFor(init, i, key) && r.words == init[i].words && r.cents == init[i].cents
      && (!DeliveredBooked(init, key) ==> r.booking == init[i].booking && r.value == init[i].value);
    assert FirstFor(ds, i, key) && ds[i] == init[i];
    if DeliveredBooked(init, key) {
      var b :| FirstBookedFor(init, b, key) && r.booking == init[b].booking && r.value == init[b].value;
      assert FirstBookedFor(ds, b, key) && ds[b] == init[b];
    } else if DeliveryKey(d) == key && d.status == Booked {
      assert ds[|init|] == d;
      assert forall j :: 0 <= j < |init| ==> ds[j] == init[j];
      assert FirstBookedFor(ds, |init|, key);
    }
  }

  lemma FirstDelivery(init: seq<Delivery>, d: Delivery)
    requires !Delivered(init, DeliveryKey(d))
    ensures RowOfDeliveries(NewRow(d), init + [d], DeliveryKey(d))
  {
    var (ds, key) := (init + [d], DeliveryKey(d));
    FirstStaysFirst(init, d, key);
    assert forall j :: 0 <= j < |init| ==> ds[j] == init[j];
    assert ds[|init|] == d;
    assert FirstFor(ds, |init|, key);
    if d.status == Booked {
      assert FirstBookedFor(ds, |init|, key);
    } else {
      assert !DeliveredBooked(init, key);
    }
  }

  lemma {:induction false} IngestedIds(ds: seq<Delivery>)
    ensures forall id :: id in Ingest(ds) ==> exists i :: 0 <= i < |ds| && ds[i].newId == id
  {
    if ds != [] {
      IngestedIds(ds[..|ds| - 1]);
    }
  }

  /** After any deliveries, replays included, there is one row per delivered key, and it is the one
      `RowOfDeliveries` describes. */
  lemma {:induction false} IngestedRows(ds: seq<Delivery>)
    requires DistinctNewIds(ds)
    ensures UniqueKeys(Ingest(ds))
    ensures forall key :: Known(Ingest(ds), key) <==> Delivered(ds, key)
    ensures forall id :: id in Ingest(ds) ==> RowOfDeliveries(Ingest(ds)[id], ds, RowKey(Ingest(ds)[id]))
  {
    if ds != [] {
      var (init, d) := (ds[..|ds| - 1], ds[|ds| - 1]);
      var (t, u) := (Ingest(init), Ingest(ds));
      assert ds == init + [d];
      IngestedRows(init);
      IngestedIds(init);
      assert d.newId !in t;
      forall key
        ensures Known(u, key) <==> Delivered(ds, key)
      {
        FirstStaysFirst(init, d, key);
        KnownAfterUpsert(t, d, key);
      }
      forall id | id in u
        ensures RowOfDeliveries(u[id], ds, RowKey(u[id]))
      {
        if id in t {
          OneMoreDelivery(t[id], init, d, RowKey(t[id]));
        } else {
          FirstDelivery(init, d);
        }
      }
    }
  }

  lemma KnownAfterUpsert(t: Table, d: Delivery, key: Key)
    requires d.newId !in t
    ensures Known(Upsert(t, d), key) <==> Known(t, key) || DeliveryKey(d) == key
  {
    var u := Upsert(t, d);
    if Known(t, key) {
      var id :| id in t && RowKey(t[id]) == key;
      assert id in u && RowKey(u[id]) == key;
    }
    if DeliveryKey(d) == key && !Known(t, key) {
      assert d.newId in u && RowKey(u[d.newId]) == key;
    }
  }

  /** `Inserted` is answered exactly once per key, to its first delivery. */
  lemma {:induction false} InsertedOnce(ds: seq<Delivery>)
    requires DistinctNewIds(ds)
    ensures |Outcomes(ds)| == |ds|
    ensures forall i :: 0 <= i < |ds| ==>
      (Outcomes(ds)[i].Inserted? <==> FirstFor(ds, i, DeliveryKey(ds[i])))
  {
    if ds != [] {
      var (init, d) := (ds[..|ds| - 1], ds[|ds| - 1]);
      assert ds == init + [d];
      InsertedOnce(init);
      IngestedRows(init);
      forall i | 0 <= i < |ds|
        ensures Outcomes(ds)[i].Inserted? <==> FirstFor(ds, i, DeliveryKey(ds[i]))
      {
        if i < |init| {
          assert Outcomes(ds)[i] == Outcomes(init)[i];
          assert FirstFor(ds, i, DeliveryKey(ds[i])) <==> FirstFor(init, i, DeliveryKey(init[i]));
        } else {
          assert Known(Ingest(init), DeliveryKey(d)) <==> Delivered(init, DeliveryKey(d));
        }
      }
    }
  }

  ghost predicate Holds(t: Table, key: Key, status: Status) {
    exists id :: id in t && RowKey(t[id]) == key && t[id].status == status
  }

  lemma StatusOfKey(ds: seq<Delivery>, key: Key, status: Status)
    requires DistinctNewIds(ds)
    ensures Holds(Ingest(ds), key, status) <==>
      Delivered(ds, key) && (status == Booked <==> DeliveredBooked(ds, key))
  {
    IngestedRows(ds);
    if Delivered(ds, key) {
      assert Known(Ingest(ds), key);
      var id :| id in Ingest(ds) && RowKey(Ingest(ds)[id]) == key;
      assert RowOfDeliveries(Ingest(ds)[id], ds, key);
    }
  }

  /** The keys stored and their statuses do not depend on the order of delivery. */
  lemma DeliveriesCommute(ds: seq<Delivery>, es: seq<Delivery>)
    requires DistinctNewIds(ds) && DistinctNewIds(es)
    requires multiset(ds) == multiset(es)
    ensures forall key, status :: Holds(Ingest(ds), key, status) <==> Holds(Ingest(es), key, status)
  {
    SameElements(ds, es);
    forall key, status
      ensures Holds(Ingest(ds), key, status) <==> Holds(Ingest(es), key, status)
    {
      StatusOfKey(ds, key, status);
      StatusOfKey(es, key, status);
      SameDeliveries(ds, es, key);
      SameDeliveries(es, ds, key);
    }
  }

  lemma SameDeliveries(ds: seq<Delivery>, es: seq<Delivery>, key: Key)
    requires forall d :: d in ds ==> d in es
    ensures Delivered(ds, key) ==> Delivered(es, key)
    ensures DeliveredBooked(ds, key) ==> DeliveredBooked(es, key)
  {
    if Delivered(ds, key) {
      var i :| 0 <= i < |ds| && DeliveryKey(ds[i]) == key;
      assert ds[i] in es;
    }
    if DeliveredBooked(ds, key) {
      var i :| 0 <= i < |ds| && DeliveryKey(ds[i]) == key && ds[i].status == Booked;
      assert ds[i] in es;
    }
  }
}
