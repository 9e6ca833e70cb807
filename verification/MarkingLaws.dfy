/** What the pairing stage answers: the rows marked since the reset, which are the newly marked ones only
    when no paired row bore an automatic mark already. */
module MarkingLaws {
  import opened LabelLaws
  import opened Pairing
  import opened PairingLaws
  import opened Reconciliation
  import opened ReconciliationLaws
  import opened Rules
  import opened TransactionLaws
  import opened Transactions
  import opened Wrappers

  /** Rows of the owner that the pairing stage turns from unmarked to marked. */
  function TrulyNew(t: Table, c: Context, ids: set<nat>): set<nat> {
    set id | id in t && c.Owns(t[id]) && !t[id].internal && PairingRow(t[id], id in ids).internal
  }

  /** A paired row of the owner that the automatic pairing had marked before. */
  predicate MarkedAgain(t: Table, c: Context, ids: set<nat>, id: nat) {
    id in t && id in ids && c.Owns(t[id]) && t[id].internal && t[id].category != Some(INTERNAL_TRANSFERS)
  }

  /** The answer is the number of newly marked rows exactly when no row is marked again. */
  lemma AnswerCountsNewMarksExactly(t: Table, c: Context, ids: set<nat>)
    ensures TrulyNew(t, c, ids) <= NewlyMarked(t, c, ids)
    ensures |NewlyMarked(t, c, ids)| == |TrulyNew(t, c, ids)| <==> !exists id :: MarkedAgain(t, c, ids, id)
  {
    var (counted, truly) := (NewlyMarked(t, c, ids), TrulyNew(t, c, ids));
    forall id
      ensures id in counted <==> id in truly || MarkedAgain(t, c, ids, id)
      ensures MarkedAgain(t, c, ids, id) ==> id !in truly
    {
    }
    assert counted == truly + (counted - truly);
    if id :| MarkedAgain(t, c, ids, id) {
      assert id in counted - truly;
    } else {
      assert counted == truly;
    }
  }

  /** Run again with nothing in between, the stage marks no new row and answers the same number. */
  lemma SecondAnswerRepeats(t: Table, c: Context)
    requires TableInvariant(t)
    ensures var (ids, u) := (PairedIds(Movements(t, c)), AfterPairing(t, c));
      && PairedIds(Movements(u, c)) == ids
      && TrulyNew(u, c, ids) == {}
      && NewlyMarked(u, c, ids) == NewlyMarked(t, c, ids)
  {
    var (ids, u) := (PairedIds(Movements(t, c)), AfterPairing(t, c));
    PairedPairsAlike(t, c);
    assert u.Keys == t.Keys;
    forall id | id in t
      ensures RowInvariant(t[id])
      ensures u[id] == if c.Owns(t[id]) then PairingRow(t[id], id in ids) else t[id]
    {
      PairedAt(t, c, id);
    }
    PairedAgain(t, u, c, ids);
  }

  lemma PairedAgain(t: Table, u: Table, c: Context, ids: set<nat>)
    requires u.Keys == t.Keys
    requires forall id :: id in t ==> RowInvariant(t[id])
    requires forall id :: id in t ==> u[id] == if c.Owns(t[id]) then PairingRow(t[id], id in ids) else t[id]
    ensures TrulyNew(u, c, ids) == {}
    ensures NewlyMarked(u, c, ids) == NewlyMarked(t, c, ids)
  {
    forall id | id in t && c.Owns(t[id])
      ensures c.Owns(u[id]) && PairingRow(u[id], id in ids) == u[id]
      ensures id in ids ==> (Unmarked(u[id]).internal <==> Unmarked(t[id]).internal)
    {
      PairingRowAgain(t[id], id in ids);
    }
  }

  lemma PairingRowAgain(r: Row, paired: bool)
    requires RowInvariant(r)
    ensures var s := PairingRow(r, paired);
      && s.account == r.account
      && PairingRow(s, paired) == s
      && (paired ==> (Unmarked(s).internal <==> Unmarked(r).internal))
  {
  }

  // ----- A table on which the answer is wrong

  const DEBIT_ROW := Row(1, "debit", Booked, [], -500, Some(1), None, None, Uncategorised, None, false)
  const CREDIT_ROW := Row(2, "credit", Booked, [], 500, Some(1), None, None, Uncategorised, None, false)

  const TWO_ROWS: Table := map[1 := DEBIT_ROW, 2 := CREDIT_ROW]

  const OWNER := Context(map[1 := 7, 2 := 7], 7, PROGRAM)

  const DEBIT := Movement(1, 1, -500, 1, [], false)
  const CREDIT := Movement(2, 2, 500, 1, [], false)

  /** The two rows, the debit categorised in some way but not by hand. */
  ghost predicate IsTwoRows(t: Table) {
    && t.Keys == {1, 2} && t[2] == CREDIT_ROW
    && t[1] == DEBIT_ROW.(category := t[1].category, source := t[1].source, rule := t[1].rule)
    && t[1].source != Manual
  }

  lemma MovementsOfTwo(t: Table, c: Context)
    requires IsTwoRows(t)
    requires c.owners == map[1 := 7, 2 := 7] && c.owner == 7 && c.reading.reduce([]) == []
    ensures Movements(t, c) == {DEBIT, CREDIT}
  {
    assert MovementOf(1, t[1], c) == DEBIT && MovementOf(2, t[2], c) == CREDIT;
    assert Pairable(t[1], c) && Pairable(t[2], c);
  }

  lemma PairedOfTwo(t: Table)
    requires IsTwoRows(t)
    ensures PairedIds(Movements(t, OWNER)) == {1, 2}
  {
    CounterpartyIsEmptyOnlyForNoWords([]);
    MovementsOfTwo(t, OWNER);
    PairedOfCouple(DEBIT, CREDIT);
  }

  lemma PairedOfCouple(debit: Movement, credit: Movement)
    requires TwoFaces(debit, credit) && debit.cents < 0 && debit.id != credit.id
    requires !debit.handFiled && !credit.handFiled
    ensures PairedIds({debit, credit}) == {debit.id, credit.id}
  {
    var ms := [debit, credit];
    assert Lists(ms, {debit, credit});
    PairedIdsOfListing(ms, {debit, credit});
    OneCouple(debit, credit);
  }

  /** A debit and a credit that can be two faces of a transfer, with nobody else about, are paired. */
  lemma OneCouple(debit: Movement, credit: Movement)
    requires TwoFaces(debit, credit) && debit.cents < 0 && debit.id != credit.id
    requires !debit.handFiled && !credit.handFiled
    ensures Ids(Faces(Paired([debit, credit]))) == {debit.id, credit.id}
  {
    var ms := [debit, credit];
    var couple := Couple(Resemblance(debit.words, credit.words), debit, credit);
    CouplesAre(ms);
    assert forall c :: c in Couples(ms) <==> c == couple;
    OnlyCoupleIsKept(ms, couple);
    FacesOfOne(Paired(ms), couple);
  }

  lemma FacesOfOne(cs: seq<Couple>, couple: Couple)
    requires forall c :: c in cs <==> c == couple
    ensures Ids(Faces(cs)) == {couple.debit.id, couple.credit.id}
  {
    FacesAre(cs);
    assert IsFace(couple.debit.id, cs) && IsFace(couple.credit.id, cs);
  }

  lemma OnlyCoupleIsKept(ms: seq<Movement>, couple: Couple)
    requires DistinctIds(ms)
    requires forall c :: c in Couples(ms) <==> c == couple
    requires !couple.debit.handFiled && !couple.credit.handFiled
    ensures forall c :: c in Paired(ms) <==> c == couple
  {
    BeyondDoubtIsAlone(ms, couple);
    assert Candidates(ms) == {couple};
    assert PairingLaws.Stable({couple}, Candidates(ms));
    PairedIsTheStableChoice(ms, {couple});
    assert forall c :: c in Paired(ms) <==> c in Elements(Paired(ms));
  }

  /** On a debit and its credit, already paired, the stage marks nothing new and answers two. */
  lemma AnswerCanBeWrong()
    ensures var (ids, u) := (PairedIds(Movements(TWO_ROWS, OWNER)), AfterPairing(TWO_ROWS, OWNER));
      && PairedIds(Movements(u, OWNER)) == ids
      && NewlyMarked(u, OWNER, ids) == {1, 2}
      && TrulyNew(u, OWNER, ids) == {}
  {
    PairedOfTwo(TWO_ROWS);
    TwoRowsAreSound();
    SecondAnswerRepeats(TWO_ROWS, OWNER);
  }

  lemma TwoRowsAreSound()
    ensures TableInvariant(TWO_ROWS)
    ensures NewlyMarked(TWO_ROWS, OWNER, {1, 2}) == {1, 2}
  {
    assert RowKey(DEBIT_ROW) != RowKey(CREDIT_ROW);
  }

  /** The same rows, the debit categorised by a rule. */
  const RULED_ROWS: Table := map[1 := DEBIT_ROW.(category := Some(5), source := ByRule, rule := Some(9)), 2 := CREDIT_ROW]

  lemma RuledRowsAreSound()
    ensures TableInvariant(RULED_ROWS)
  {
    assert RowKey(RULED_ROWS[1]) != RowKey(RULED_ROWS[2]);
  }

  lemma RuledRowIsDropped(r: Row, rules: seq<Rule>, category: Option<nat>, c: Context)
    requires r.source == ByRule && !r.internal
    ensures ReconciledRow(r, true, rules, category, c)
         == r.(internal := true, category := None, source := Uncategorised, rule := None)
  {
  }

  /** Pairing drops the categorisation a rule had given, whatever the rules and the default. */
  lemma RuleCategorisationCanBeDropped(rules: seq<Rule>, category: Option<nat>)
    ensures TableInvariant(RULED_ROWS)
    ensures var u := Reconciled(RULED_ROWS, rules, category, OWNER);
      1 in u && u[1] == DEBIT_ROW.(internal := true)
  {
    RuledRowsAreSound();
    PairedOfTwo(RULED_ROWS);
    ReconciledAt(RULED_ROWS, rules, category, OWNER, 1);
    RuledRowIsDropped(RULED_ROWS[1], rules, category, OWNER);
  }
}
