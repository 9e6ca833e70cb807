/** Pairing of internal transfers: each debit with the credit that resembles it most, on another
    account of the same owner and a few days away at most. */
module Pairing {
  import opened Ordering
  import opened Text

  const TOLERANCE_DAYS := 4
  const MINIMUM_RESEMBLANCE: real := 0.25

  datatype Movement = Movement(
    id: nat, account: nat, cents: int, day: int, words: seq<Word>, handFiled: bool)

  datatype Couple = Couple(score: real, debit: Movement, credit: Movement)

  function WordSet(words: seq<Word>): set<Word> {
    set word | word in words :: Upper(word)
  }

  /** Share of the common words of two labels (the Jaccard index), as an exact fraction. */
  function Resemblance(a: seq<Word>, b: seq<Word>): real {
    var (x, y) := (WordSet(a), WordSet(b));
    if |x + y| == 0 then 0.0 else |x * y| as real / |x + y| as real
  }

  predicate TwoFaces(debit: Movement, credit: Movement) {
    && credit.account != debit.account
    && credit.cents == -debit.cents
    && -TOLERANCE_DAYS <= credit.day - debit.day <= TOLERANCE_DAYS
  }

  /** Best score first, then the earliest debit, then the identifiers. */
  predicate Before(a: Couple, b: Couple) {
    || a.score > b.score
    || (a.score == b.score
        && (|| a.debit.day < b.debit.day
            || (a.debit.day == b.debit.day
                && (|| a.debit.id < b.debit.id
                    || (a.debit.id == b.debit.id && a.credit.id <= b.credit.id)))))
  }

  function Debits(ms: seq<Movement>): seq<Movement> {
    if ms == [] then []
    else Debits(ms[..|ms| - 1]) + if ms[|ms| - 1].cents < 0 then [ms[|ms| - 1]] else []
  }

  function Credits(ms: seq<Movement>): seq<Movement> {
    if ms == [] then []
    else Credits(ms[..|ms| - 1]) + if ms[|ms| - 1].cents > 0 then [ms[|ms| - 1]] else []
  }

  function CouplesOf(debit: Movement, credits: seq<Movement>): seq<Couple> {
    if credits == [] then []
    else
      var credit := credits[|credits| - 1];
      CouplesOf(debit, credits[..|credits| - 1])
      + if TwoFaces(debit, credit)
        then [Couple(Resemblance(debit.words, credit.words), debit, credit)] else []
  }

  function AllCouples(debits: seq<Movement>, credits: seq<Movement>): seq<Couple> {
    if debits == [] then []
    else AllCouples(debits[..|debits| - 1], credits) + CouplesOf(debits[|debits| - 1], credits)
  }

  function Couples(ms: seq<Movement>): seq<Couple> {
    AllCouples(Debits(ms), Credits(ms))
  }

  /** How many couples the debit `id` appears in. */
  function PartnersOfDebit(cs: seq<Couple>, id: nat): nat {
    if cs == [] then 0
    else PartnersOfDebit(cs[..|cs| - 1], id) + if cs[|cs| - 1].debit.id == id then 1 else 0
  }

  function PartnersOfCredit(cs: seq<Couple>, id: nat): nat {
    if cs == [] then 0
    else PartnersOfCredit(cs[..|cs| - 1], id) + if cs[|cs| - 1].credit.id == id then 1 else 0
  }

  /** A couple no other couple can be mistaken for, neither face of it filed by hand. */
  predicate BeyondDoubt(c: Couple, all: seq<Couple>) {
    && PartnersOfDebit(all, c.debit.id) == 1
    && PartnersOfCredit(all, c.credit.id) == 1
    && !c.debit.handFiled
    && !c.credit.handFiled
  }

  predicate Admissible(c: Couple, all: seq<Couple>) {
    c.score >= MINIMUM_RESEMBLANCE || BeyondDoubt(c, all)
  }

  /** The couples kept when `cs` is read from the front. */
  function Chosen(cs: seq<Couple>, all: seq<Couple>, debits: set<nat>, credits: set<nat>): seq<Couple> {
    if cs == [] then
      []
    else
      var c := cs[0];
      if c.debit.id in debits || c.credit.id in credits || !Admissible(c, all) then
        Chosen(cs[1..], all, debits, credits)
      else
        [c] + Chosen(cs[1..], all, debits + {c.debit.id}, credits + {c.credit.id})
  }

  function Ranked(ms: seq<Movement>): seq<Couple> {
    SortBy(Couples(ms), Before)
  }

  function Paired(ms: seq<Movement>): seq<Couple> {
    Chosen(Ranked(ms), Couples(ms), {}, {})
  }

  /** The identifiers of both faces of each couple, in order. */
  function Faces(cs: seq<Couple>): seq<nat> {
    if cs == [] then []
    else Faces(cs[..|cs| - 1]) + [cs[|cs| - 1].debit.id, cs[|cs| - 1].credit.id]
  }

  // ----- The detection as the program runs it

  method CollectCouples(debits: seq<Movement>, credits: seq<Movement>) returns (couples: seq<Couple>)
    ensures couples == AllCouples(debits, credits)
  {
    couples := [];
    for i := 0 to |debits|
      invariant couples == AllCouples(debits[..i], credits)
    {
      for j := 0 to |credits|
        invariant couples == AllCouples(debits[..i], credits) + CouplesOf(debits[i], credits[..j])
      {
        assert credits[..j + 1][..j] == credits[..j];
        if TwoFaces(debits[i], credits[j]) {
          couples := couples + [Couple(Resemblance(debits[i].words, credits[j].words), debits[i], credits[j])];
        }
      }
      assert credits[..|credits|] == credits;
      assert debits[..i + 1][..i] == debits[..i];
    }
    assert debits[..|debits|] == debits;
  }

  function Tally(counts: map<nat, nat>, id: nat): nat {
    if id in counts then counts[id] else 0
  }

  method CountPartners(couples: seq<Couple>) returns (ofDebit: map<nat, nat>, ofCredit: map<nat, nat>)
    ensures forall id :: Tally(ofDebit, id) == PartnersOfDebit(couples, id)
    ensures forall id :: Tally(ofCredit, id) == PartnersOfCredit(couples, id)
  {
    ofDebit, ofCredit := map[], map[];
    for i := 0 to |couples|
      invariant forall id :: Tally(ofDebit, id) == PartnersOfDebit(couples[..i], id)
      invariant forall id :: Tally(ofCredit, id) == PartnersOfCredit(couples[..i], id)
    {
      assert couples[..i + 1][..i] == couples[..i];
      var c := couples[i];
      ofDebit := ofDebit[c.debit.id := Tally(ofDebit, c.debit.id) + 1];
      ofCredit := ofCredit[c.credit.id := Tally(ofCredit, c.credit.id) + 1];
    }
    assert couples[..|couples|] == couples;
  }

  lemma OneMoreFaces(kept: seq<Couple>, c: Couple)
    ensures Faces(kept + [c]) == Faces(kept) + [c.debit.id] + [c.credit.id]
  {
    assert (kept + [c])[..|kept|] == kept;
  }

  lemma OneMoreKept(kept: seq<Couple>, c: Couple, rest: seq<Couple>)
    ensures (kept + [c]) + rest == kept + ([c] + rest)
  {
  }

  /** Reads the ranked couples once, keeping each admissible one whose two faces are still free. */
  method KeepBest(ranked: seq<Couple>, ofDebit: map<nat, nat>, ofCredit: map<nat, nat>, ghost all: seq<Couple>)
    returns (paired: seq<nat>)
    requires forall id :: Tally(ofDebit, id) == PartnersOfDebit(all, id)
    requires forall id :: Tally(ofCredit, id) == PartnersOfCredit(all, id)
    ensures paired == Faces(Chosen(ranked, all, {}, {}))
  {
    var debitsTaken, creditsTaken := {}, {};
    paired := [];
    ghost var kept: seq<Couple> := [];
    var i := 0;
    while i < |ranked|
      invariant 0 <= i <= |ranked|
      invariant paired == Faces(kept)
      invariant kept + Chosen(ranked[i..], all, debitsTaken, creditsTaken) == Chosen(ranked, all, {}, {})
    {
      var c := ranked[i];
      ChosenStep(ranked, i, all, debitsTaken, creditsTaken);
      i := i + 1;
      if c.debit.id in debitsTaken || c.credit.id in creditsTaken {
        continue;
      }
      if c.score < MINIMUM_RESEMBLANCE && !WithoutDoubt(c, ofDebit, ofCredit) {
        continue;
      }
      debitsTaken := debitsTaken + {c.debit.id};
      creditsTaken := creditsTaken + {c.credit.id};
      paired := paired + [c.debit.id] + [c.credit.id];
      OneMoreFaces(kept, c);
      OneMoreKept(kept, c, Chosen(ranked[i..], all, debitsTaken, creditsTaken));
      kept := kept + [c];
    }
    assert ranked[i..] == [] && kept + [] == kept;
  }

  lemma ChosenStep(cs: seq<Couple>, i: nat, all: seq<Couple>, debits: set<nat>, credits: set<nat>)
    requires i < |cs|
    ensures Chosen(cs[i..], all, debits, credits) ==
      if cs[i].debit.id in debits || cs[i].credit.id in credits || !Admissible(cs[i], all)
      then Chosen(cs[i + 1..], all, debits, credits)
      else [cs[i]] + Chosen(cs[i + 1..], all, debits + {cs[i].debit.id}, credits + {cs[i].credit.id})
  {
    assert cs[i..][1..] == cs[i + 1..];
  }

  /** The test of the program on its partner counts. */
  predicate WithoutDoubt(c: Couple, ofDebit: map<nat, nat>, ofCredit: map<nat, nat>) {
    && Tally(ofDebit, c.debit.id) == 1
    && Tally(ofCredit, c.credit.id) == 1
    && !c.debit.handFiled
    && !c.credit.handFiled
  }

  method DetectInternalTransfers(ms: seq<Movement>) returns (paired: seq<nat>)
    ensures paired == Faces(Paired(ms))
  {
    var couples := CollectCouples(Debits(ms), Credits(ms));
    var ofDebit, ofCredit := CountPartners(couples);
    paired := KeepBest(SortBy(couples, Before), ofDebit, ofCredit, couples);
  }
}
