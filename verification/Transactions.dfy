/** The transaction table and the atomic steps the program takes on it, one per SQL statement. */
module Transactions {
  import opened Labels
  import opened Rules
  import opened Wrappers

  /** Fixed identifier of the system category "Virements internes". */
  const INTERNAL_TRANSFERS: nat := 0x00000000_0000_4000_8000_000000000001

  datatype Status = Booked | Pending

  datatype Source = Manual | ByRule | Uncategorised

  datatype Row = Row(
    account: nat, externalId: string, status: Status, words: Label, cents: int,
    booking: Option<int>, value: Option<int>,
    category: Option<nat>, source: Source, rule: Option<nat>, internal: bool)

  type Table = map<nat, Row>

  /** Owner of each bank account. */
  type Owners = map<nat, nat>

  predicate Owned(r: Row, owners: Owners, owner: nat) {
    r.account in owners && owners[r.account] == owner
  }

  /** The booking date, or the value date for want of it. */
  function EffectiveDate(r: Row): Option<int> {
    r.booking.Or(r.value)
  }

  // ----- What a step does to one row

  function Filed(r: Row, category: nat): Row {
    r.(category := Some(category), source := Manual, rule := None, internal := category == INTERNAL_TRANSFERS)
  }

  function RuleApplied(r: Row, rule: Rule): Row {
    r.(category := Some(rule.category), source := ByRule, rule := Some(rule.id))
  }

  function Defaulted(r: Row, category: nat): Row {
    r.(category := Some(category), source := ByRule, rule := None)
  }

  /** Drops the automatic mark; rows filed under the system category keep it. */
  function Unmarked(r: Row): Row {
    if r.internal && r.category != Some(INTERNAL_TRANSFERS) then r.(internal := false) else r
  }

  /** Marks a row as one face of an internal transfer; an automatic categorisation is dropped. */
  function Marked(r: Row): Row {
    if r.internal then r
    else if r.source == Manual then r.(internal := true)
    else r.(internal := true, category := None, rule := None, source := Uncategorised)
  }

  // ----- Steps

  function ResetInternal(t: Table, owners: Owners, owner: nat): Table {
    map id | id in t :: if Owned(t[id], owners, owner) then Unmarked(t[id]) else t[id]
  }

  function MarkInternal(t: Table, owners: Owners, owner: nat, ids: set<nat>): Table {
    map id | id in t :: if id in ids && Owned(t[id], owners, owner) then Marked(t[id]) else t[id]
  }

  function ApplyRule(t: Table, owners: Owners, owner: nat, id: nat, rule: Rule): Table {
    if id in t && Owned(t[id], owners, owner) && t[id].source != Manual
    then t[id := RuleApplied(t[id], rule)] else t
  }

  predicate BatchReaches(r: Row, owners: Owners, owner: nat) {
    Owned(r, owners, owner) && r.source == Uncategorised
  }

  function ApplyRuleBatch(t: Table, owners: Owners, rule: Rule, ids: set<nat>): Table {
    map id | id in t ::
      if id in ids && BatchReaches(t[id], owners, rule.owner) then RuleApplied(t[id], rule) else t[id]
  }

  function ApplyDefaultBatch(t: Table, owners: Owners, owner: nat, category: nat, ids: set<nat>): Table {
    map id | id in t ::
      if id in ids && BatchReaches(t[id], owners, owner) then Defaulted(t[id], category) else t[id]
  }

  predicate CanFile(t: Table, owners: Owners, owner: nat, account: nat, id: nat) {
    id in t && t[id].account == account && Owned(t[id], owners, owner)
  }

  function File(t: Table, owners: Owners, owner: nat, account: nat, id: nat, category: nat): Table {
    if CanFile(t, owners, owner, account, id) then t[id := Filed(t[id], category)] else t
  }

  // ----- Deliveries from the bank

  /** A transaction sent by the bank; `newId` is the identifier the database would give it. */
  datatype Delivery = Delivery(
    newId: nat, account: nat, externalId: string, status: Status, words: Label, cents: int,
    booking: Option<int>, value: Option<int>)

  datatype Key = Key(account: nat, externalId: string)

  datatype InsertOutcome = Inserted(id: nat) | Duplicate

  function RowKey(r: Row): Key {
    Key(r.account, r.externalId)
  }

  function DeliveryKey(d: Delivery): Key {
    Key(d.account, d.externalId)
  }

  function NewRow(d: Delivery): Row {
    Row(d.account, d.externalId, d.status, d.words, d.cents, d.booking, d.value,
        None, Uncategorised, None, false)
  }

  /** A replay only books a pending row, with its dates. */
  function Merged(r: Row, d: Delivery): Row {
    if r.status == Pending && d.status == Booked
    then r.(status := Booked, booking := d.booking, value := d.value) else r
  }

  predicate Known(t: Table, key: Key) {
    exists id :: id in t && RowKey(t[id]) == key
  }

  function Upsert(t: Table, d: Delivery): Table {
    if Known(t, DeliveryKey(d)) then
      map id | id in t :: if RowKey(t[id]) == DeliveryKey(d) then Merged(t[id], d) else t[id]
    else
      t[d.newId := NewRow(d)]
  }

  function OutcomeOfUpsert(t: Table, d: Delivery): InsertOutcome {
    if Known(t, DeliveryKey(d)) then Duplicate else Inserted(d.newId)
  }

  // ----- Runs: any interleaving of steps, with identifier lists as stale as one likes

  datatype Step =
    | Deliver(delivery: Delivery)
    | RuleOnRow(owner: nat, id: nat, rule: Rule)
    | RuleOnBatch(rule: Rule, ids: set<nat>)
    | FileByHand(owner: nat, account: nat, id: nat, category: nat)
    | Reset(owner: nat)
    | Mark(owner: nat, ids: set<nat>)
    | DefaultOnBatch(owner: nat, category: nat, ids: set<nat>)

  function Apply(t: Table, owners: Owners, step: Step): Table {
    match step
    case Deliver(d) => Upsert(t, d)
    case RuleOnRow(owner, id, rule) => ApplyRule(t, owners, owner, id, rule)
    case RuleOnBatch(rule, ids) => ApplyRuleBatch(t, owners, rule, ids)
    case FileByHand(owner, account, id, category) => File(t, owners, owner, account, id, category)
    case Reset(owner) => ResetInternal(t, owners, owner)
    case Mark(owner, ids) => MarkInternal(t, owners, owner, ids)
    case DefaultOnBatch(owner, category, ids) => ApplyDefaultBatch(t, owners, owner, category, ids)
  }

  function Run(t: Table, owners: Owners, steps: seq<Step>): Table {
    if steps == [] then t
    else Apply(Run(t, owners, steps[..|steps| - 1]), owners, steps[|steps| - 1])
  }
}
