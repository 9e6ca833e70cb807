/** What the pairing of internal transfers promises: the kept couples are the only ones that leave
    no admissible couple with a reason to complain, so neither the reading order of the movements
    nor anything else can change them; and they conserve money. */
module PairingLaws {
  import opened Ordering
  import opened Pairing
  import opened Text

  ghost predicate DistinctIds(ms: seq<Movement>) {
    forall i, j :: 0 <= i < j < |ms| ==> ms[i].id != ms[j].id
  }

  predicate Conflict(a: Couple, b: Couple) {
    a.debit.id == b.debit.id || a.credit.id == b.credit.id
  }

  /** No other couple of `cs` shares a face with `c`. */
  ghost predicate Alone(c: Couple, cs: seq<Couple>) {
    forall o :: o in cs && Conflict(o, c) ==> o == c
  }

  ghost function Elements(cs: seq<Couple>): set<Couple> {
    set c | c in cs
  }

  ghost function Candidates(ms: seq<Movement>): set<Couple> {
    set c | c in Couples(ms) && Admissible(c, Couples(ms))
  }

  /** `kept` uses each face at most once, and every candidate left out shares a face with a kept
      couple ranked before it. */
  ghost predicate Stable(kept: set<Couple>, candidates: set<Couple>) {
    && kept <= candidates
    && (forall a, b :: a in kept && b in kept && Conflict(a, b) ==> a == b)
    && (forall c :: c in candidates && c !in kept ==> Blocked(c, kept))
  }

  ghost predicate Blocked(c: Couple, kept: set<Couple>) {
    exists k :: k in kept && Conflict(k, c) && Before(k, c)
  }

  // ----- Couples are exactly the pairs of faces

  lemma {:induction false} DebitsAre(ms: seq<Movement>)
    ensures forall m :: m in Debits(ms) <==> m in ms && m.cents < 0
    ensures DistinctIds(ms) ==> DistinctIds(Debits(ms))
  {
    if ms != [] {
      var (init, last) := (ms[..|ms| - 1], ms[|ms| - 1]);
      assert ms == init + [last];
      DebitsAre(init);
      if DistinctIds(ms) {
        assert DistinctIds(init);
        forall i | 0 <= i < |Debits(init)|
          ensures Debits(init)[i].id != last.id
        {
          assert Debits(init)[i] in init;
        }
      }
    }
  }

  lemma {:induction false} CreditsAre(ms: seq<Movement>)
    ensures forall m :: m in Credits(ms) <==> m in ms && m.cents > 0
    ensures DistinctIds(ms) ==> DistinctIds(Credits(ms))
  {
    if ms != [] {
      var (init, last) := (ms[..|ms| - 1], ms[|ms| - 1]);
      assert ms == init + [last];
      CreditsAre(init);
      if DistinctIds(ms) {
        assert DistinctIds(init);
        forall i | 0 <= i < |Credits(init)|
          ensures Credits(init)[i].id != last.id
        {
          assert Credits(init)[i] in init;
        }
      }
    }
  }

  ghost predicate CoupleOf(c: Couple, debit: Movement) {
    && c.debit == debit
    && TwoFaces(debit, c.credit)
    && c.score == Resemblance(debit.words, c.credit.words)
  }

  lemma {:induction false} CouplesOfAre(debit: Movement, credits: seq<Movement>)
    ensures forall c :: c in CouplesOf(debit, credits) <==> c.credit in credits && CoupleOf(c, debit)
    ensures DistinctIds(credits) ==> Distinct(CouplesOf(debit, credits))
  {
    if credits != [] {
      var (init, last) := (credits[..|credits| - 1], credits[|credits| - 1]);
      assert credits == init + [last];
      CouplesOfAre(debit, init);
      if DistinctIds(credits) {
        assert DistinctIds(init);
        assert last !in init;
        forall i | 0 <= i < |CouplesOf(debit, init)|
          ensures CouplesOf(debit, init)[i].credit != last
        {
          assert CouplesOf(debit, init)[i] in CouplesOf(debit, init);
        }
      }
    }
  }

  lemma {:induction false} AllCouplesAre(debits: seq<Movement>, credits: seq<Movement>)
    ensures forall c :: c in AllCouples(debits, credits) <==>
      c.debit in debits && c.credit in credits && CoupleOf(c, c.debit)
    ensures DistinctIds(debits) && DistinctIds(credits) ==> Distinct(AllCouples(debits, credits))
  {
    if debits != [] {
      var (init, last) := (debits[..|debits| - 1], debits[|debits| - 1]);
      assert debits == init + [last];
      AllCouplesAre(init, credits);
      CouplesOfAre(last, credits);
      if DistinctIds(debits) && DistinctIds(credits) {
        assert DistinctIds(init);
        assert last !in init;
        var (front, back) := (AllCouples(init, credits), CouplesOf(last, credits));
        forall i, j | 0 <= i < |front| && 0 <= j < |back|
          ensures front[i] != back[j]
        {
          assert front[i] in front && back[j] in back;
        }
      }
    }
  }

  /** The couples examined: a debit and a credit of the list that can be the two faces of a transfer. */
  lemma CouplesAre(ms: seq<Movement>)
    ensures forall c :: c in Couples(ms) <==>
      && c.debit in ms && c.credit in ms
      && c.debit.cents < 0 < c.credit.cents
      && CoupleOf(c, c.debit)
    ensures DistinctIds(ms) ==> Distinct(Couples(ms))
  {
    DebitsAre(ms);
    CreditsAre(ms);
    AllCouplesAre(Debits(ms), Credits(ms));
  }

  /** With distinct identifiers two different couples never tie. */
  lemma CouplesNeverTie(ms: seq<Movement>, a: Couple, b: Couple)
    requires DistinctIds(ms)
    requires a in Couples(ms) && b in Couples(ms)
    requires Before(a, b) && Before(b, a)
    ensures a == b
  {
    CouplesAre(ms);
  }

  lemma BeforeIsTotal()
    ensures TotalPreorder(Before)
  {
  }

  // ----- A couple beyond doubt is one nobody else competes with

  lemma {:induction false} NoPartner(cs: seq<Couple>, id: nat)
    ensures PartnersOfDebit(cs, id) == 0 <==> forall c :: c in cs ==> c.debit.id != id
    ensures PartnersOfCredit(cs, id) == 0 <==> forall c :: c in cs ==> c.credit.id != id
  {
    if cs != [] {
      assert cs == cs[..|cs| - 1] + [cs[|cs| - 1]];
      NoPartner(cs[..|cs| - 1], id);
    }
  }

  lemma {:induction false} OnePartnerOfDebit(cs: seq<Couple>, c: Couple)
    requires Distinct(cs) && c in cs
    ensures PartnersOfDebit(cs, c.debit.id) == 1 <==> forall o :: o in cs && o.debit.id == c.debit.id ==> o == c
  {
    var (init, last) := (cs[..|cs| - 1], cs[|cs| - 1]);
    assert cs == init + [last];
    NoPartner(init, c.debit.id);
    if c == last {
      assert c !in init;
    } else {
      OnePartnerOfDebit(init, c);
    }
  }

  lemma {:induction false} OnePartnerOfCredit(cs: seq<Couple>, c: Couple)
    requires Distinct(cs) && c in cs
    ensures PartnersOfCredit(cs, c.credit.id) == 1 <==> forall o :: o in cs && o.credit.id == c.credit.id ==> o == c
  {
    var (init, last) := (cs[..|cs| - 1], cs[|cs| - 1]);
    assert cs == init + [last];
    NoPartner(init, c.credit.id);
    if c == last {
      assert c !in init;
    } else {
      OnePartnerOfCredit(init, c);
    }
  }

  /** The counters of the program recognise exactly the couples that compete with no other. */
  lemma BeyondDoubtIsAlone(ms: seq<Movement>, c: Couple)
    requires DistinctIds(ms) && c in Couples(ms)
    ensures BeyondDoubt(c, Couples(ms)) <==>
      Alone(c, Couples(ms)) && !c.debit.handFiled && !c.credit.handFiled
  {
    CouplesAre(ms);
    OnePartnerOfDebit(Couples(ms), c);
    OnePartnerOfCredit(Couples(ms), c);
  }

  // ----- Resemblance

  lemma Subset(a: set<Word>, b: set<Word>)
    requires a <= b
    ensures |a| <= |b| && (|a| == |b| ==> a == b)
  {
    assert b == a + (b - a);
  }

  /** The score of two labels is a share: symmetric, zero exactly for labels without a common word, one
      exactly for labels made of the same words, whatever their case, order and repetitions. */
  lemma ResemblanceIsAShare(a: seq<Word>, b: seq<Word>)
    ensures 0.0 <= Resemblance(a, b) <= 1.0
    ensures Resemblance(a, b) == Resemblance(b, a)
    ensures Resemblance(a, b) == 0.0 <==> WordSet(a) !! WordSet(b)
    ensures Resemblance(a, b) == 1.0 <==> WordSet(a) == WordSet(b) && a != []
  {
    var (x, y) := (WordSet(a), WordSet(b));
    assert x + y == y + x && x * y == y * x;
    CommonPart(x, y);
    if a != [] {
      assert Upper(a[0]) in x;
    }
    if |x + y| != 0 {
      ShareBounds(|x * y|, |x + y|);
    }
  }

  lemma CommonPart(x: set<Word>, y: set<Word>)
    ensures |x * y| <= |x + y|
    ensures |x * y| == 0 <==> x !! y
    ensures |x * y| == |x + y| <==> x == y
    ensures |x + y| == 0 <==> x == {} && y == {}
  {
    Subset(x * y, x + y);
    if |x * y| == |x + y| {
      assert x <= x + y && y <= x + y;
    }
    if x == y {
      assert x * y == x + y;
    }
    assert forall w :: w in x * y <==> w in x && w in y;
    assert |x * y| == 0 <==> x * y == {};
    assert |x + y| == 0 <==> x + y == {};
    if x + y == {} {
      assert x <= x + y && y <= x + y;
    }
  }

  lemma ShareBounds(part: nat, whole: nat)
    requires part <= whole && whole > 0
    ensures 0.0 <= part as real / whole as real <= 1.0
    ensures part as real / whole as real == 0.0 <==> part == 0
    ensures part as real / whole as real == 1.0 <==> part == whole
  {
    var q := part as real / whole as real;
    assert q * whole as real == part as real;
  }

  // ----- The greedy reading is stable

  ghost predicate Free(c: Couple, cs: seq<Couple>, all: seq<Couple>, debits: set<nat>, credits: set<nat>) {
    c in cs && Admissible(c, all) && c.debit.id !in debits && c.credit.id !in credits
  }

  /** What reading `cs` keeps: admissible couples with free faces, none twice, and a reason for each one
      left out. */
  ghost predicate KeptWell(kept: seq<Couple>, cs: seq<Couple>, all: seq<Couple>, debits: set<nat>, credits: set<nat>) {
    && (forall k :: k in kept ==> Free(k, cs, all, debits, credits))
    && (forall i, j :: 0 <= i < j < |kept| ==> !Conflict(kept[i], kept[j]))
    && (forall a, b :: a in kept && b in kept && Conflict(a, b) ==> a == b)
    && (forall c :: Free(c, cs, all, debits, credits) && c !in kept ==> Blocked(c, Elements(kept)))
  }

  lemma {:induction false} ChosenFacts(cs: seq<Couple>, all: seq<Couple>, debits: set<nat>, credits: set<nat>)
    requires Sorted(cs, Before)
    ensures KeptWell(Chosen(cs, all, debits, credits), cs, all, debits, credits)
  {
    if cs != [] {
      var (head, rest) := (cs[0], cs[1..]);
      assert cs == [head] + rest;
      assert Sorted(rest, Before);
      if head.debit.id in debits || head.credit.id in credits || !Admissible(head, all) {
        ChosenFacts(rest, all, debits, credits);
      } else {
        var (ds, crs) := (debits + {head.debit.id}, credits + {head.credit.id});
        ChosenFacts(rest, all, ds, crs);
        assert forall c :: c in rest ==> Before(head, c);
        HeadIsKeptWell(head, Chosen(rest, all, ds, crs), rest, all, debits, credits);
      }
    }
  }

  lemma HeadIsKeptWell(
      head: Couple, later: seq<Couple>, rest: seq<Couple>, all: seq<Couple>, debits: set<nat>, credits: set<nat>)
    requires Admissible(head, all) && head.debit.id !in debits && head.credit.id !in credits
    requires KeptWell(later, rest, all, debits + {head.debit.id}, credits + {head.credit.id})
    requires forall c :: c in rest ==> Before(head, c)
    ensures KeptWell([head] + later, [head] + rest, all, debits, credits)
  {
    var (kept, cs) := ([head] + later, [head] + rest);
    assert forall j :: 0 <= j < |later| ==> later[j] in later && !Conflict(head, later[j]);
    forall c | Free(c, cs, all, debits, credits) && c !in kept
      ensures Blocked(c, Elements(kept))
    {
      HeadOrLaterBlocks(head, later, rest, all, debits, credits, c);
    }
  }

  lemma HeadOrLaterBlocks(
      head: Couple, later: seq<Couple>, rest: seq<Couple>, all: seq<Couple>, debits: set<nat>, credits: set<nat>, c: Couple)
    requires KeptWell(later, rest, all, debits + {head.debit.id}, credits + {head.credit.id})
    requires Free(c, rest, all, debits, credits) && c !in later && Before(head, c)
    ensures Blocked(c, Elements([head] + later))
  {
    if Conflict(head, c) {
      assert head in Elements([head] + later);
    } else {
      assert Free(c, rest, all, debits + {head.debit.id}, credits + {head.credit.id});
      var k :| k in Elements(later) && Conflict(k, c) && Before(k, c);
      assert k in Elements([head] + later);
    }
  }

  /** No blocking couple: every admissible couple left out shares its debit or its credit with a
      kept couple ranked before it. */
  lemma PairedIsStable(ms: seq<Movement>)
    requires DistinctIds(ms)
    ensures Stable(Elements(Paired(ms)), Candidates(ms))
  {
    BeforeIsTotal();
    SortBySorts(Couples(ms), Before);
    SameElements(Ranked(ms), Couples(ms));
    ChosenFacts(Ranked(ms), Couples(ms), {}, {});
    forall c | c in Candidates(ms) && c !in Paired(ms)
      ensures Blocked(c, Elements(Paired(ms)))
    {
      assert Free(c, Ranked(ms), Couples(ms), {}, {});
    }
  }

  ghost predicate NoTiesIn(candidates: set<Couple>) {
    forall a, b :: a in candidates && b in candidates && Before(a, b) && Before(b, a) ==> a == b
  }

  lemma Blocker(a: set<Couple>, b: set<Couple>, candidates: set<Couple>, c: Couple) returns (k: Couple)
    requires Stable(a, candidates) && Stable(b, candidates)
    requires c in a && c !in b
    ensures k in b && k !in a && k in candidates && Before(k, c)
  {
    assert Blocked(c, b);
    k :| k in b && Conflict(k, c) && Before(k, c);
  }

  lemma BeforeIsTransitive(a: Couple, b: Couple, c: Couple)
    requires Before(a, b) && Before(b, c)
    ensures Before(a, c)
  {
  }

  ghost function UpTo(candidates: set<Couple>, c: Couple): set<Couple> {
    set x | x in candidates && Before(x, c)
  }

  lemma FewerBefore(candidates: set<Couple>, k: Couple, c: Couple)
    requires NoTiesIn(candidates) && k in candidates && c in candidates
    requires Before(k, c) && k != c
    ensures UpTo(candidates, k) < UpTo(candidates, c)
  {
    forall x | x in UpTo(candidates, k)
      ensures x in UpTo(candidates, c)
    {
      BeforeIsTransitive(x, k, c);
    }
    assert c in UpTo(candidates, c) && c !in UpTo(candidates, k);
  }

  /** A couple kept on one side only would need an earlier couple kept on the other side only, and
      so on without end. */
  lemma {:induction false} NoDifference(a: set<Couple>, b: set<Couple>, candidates: set<Couple>, c: Couple)
    requires Stable(a, candidates) && Stable(b, candidates) && NoTiesIn(candidates)
    requires c in a
    ensures c in b
    decreases UpTo(candidates, c)
  {
    if c !in b {
      var k := Blocker(a, b, candidates, c);
      FewerBefore(candidates, k, c);
      NoDifference(b, a, candidates, k);
    }
  }

  /** Being stable fixes the kept couples. */
  lemma StableIsUnique(a: set<Couple>, b: set<Couple>, candidates: set<Couple>)
    requires Stable(a, candidates) && Stable(b, candidates) && NoTiesIn(candidates)
    ensures a == b
  {
    forall c | c in a
      ensures c in b
    {
      NoDifference(a, b, candidates, c);
    }
    forall c | c in b
      ensures c in a
    {
      NoDifference(b, a, candidates, c);
    }
  }

  lemma CandidatesNeverTie(ms: seq<Movement>)
    requires DistinctIds(ms)
    ensures NoTiesIn(Candidates(ms))
  {
    forall a, b | a in Candidates(ms) && b in Candidates(ms) && Before(a, b) && Before(b, a)
      ensures a == b
    {
      CouplesNeverTie(ms, a, b);
    }
  }

  /** The pairing is the stable choice: any set of couples without a blocking couple equals it. */
  lemma PairedIsTheStableChoice(ms: seq<Movement>, kept: set<Couple>)
    requires DistinctIds(ms)
    ensures Stable(kept, Candidates(ms)) <==> kept == Elements(Paired(ms))
  {
    PairedIsStable(ms);
    CandidatesNeverTie(ms);
    if Stable(kept, Candidates(ms)) {
      StableIsUnique(kept, Elements(Paired(ms)), Candidates(ms));
    }
  }

  // ----- Reading order does not matter

  lemma SameCouples(ms: seq<Movement>, ns: seq<Movement>)
    requires multiset(ms) == multiset(ns) && DistinctIds(ms)
    ensures DistinctIds(ns)
    ensures multiset(Couples(ms)) == multiset(Couples(ns))
    ensures forall c :: c in Couples(ms) ==>
      (BeyondDoubt(c, Couples(ms)) <==> BeyondDoubt(c, Couples(ns)))
  {
    SameElements(ms, ns);
    assert Distinct(ms);
    PermutationKeepsDistinct(ms, ns);
    assert forall a, b :: a in ms && b in ms && a.id == b.id ==> a == b;
    assert forall i, j :: 0 <= i < j < |ns| ==> ns[i] in ms && ns[j] in ms && ns[i] != ns[j];
    CouplesAre(ms);
    CouplesAre(ns);
    SameSetSameMultiset(Couples(ms), Couples(ns));
    forall c | c in Couples(ms)
      ensures BeyondDoubt(c, Couples(ms)) <==> BeyondDoubt(c, Couples(ns))
    {
      BeyondDoubtIsAlone(ms, c);
      BeyondDoubtIsAlone(ns, c);
    }
  }

  lemma {:induction false} ChosenDependsOnAdmissibility(
      cs: seq<Couple>, all: seq<Couple>, other: seq<Couple>, debits: set<nat>, credits: set<nat>)
    requires forall c :: c in cs ==> (BeyondDoubt(c, all) <==> BeyondDoubt(c, other))
    ensures Chosen(cs, all, debits, credits) == Chosen(cs, other, debits, credits)
  {
    if cs != [] {
      var c := cs[0];
      ChosenDependsOnAdmissibility(cs[1..], all, other, debits, credits);
      ChosenDependsOnAdmissibility(cs[1..], all, other, debits + {c.debit.id}, credits + {c.credit.id});
    }
  }

  /** Any reading order of the movements yields the same couples in the same order, hence the same
      list of paired identifiers. */
  lemma PairedIgnoresReadingOrder(ms: seq<Movement>, ns: seq<Movement>)
    requires DistinctIds(ms)
    requires multiset(ms) == multiset(ns)
    ensures Paired(ms) == Paired(ns)
    ensures Faces(Paired(ms)) == Faces(Paired(ns))
  {
    SameCouples(ms, ns);
    BeforeIsTotal();
    SortBySorts(Couples(ms), Before);
    SortBySorts(Couples(ns), Before);
    SameElements(Ranked(ms), Couples(ms));
    forall a, b | a in Ranked(ms) && b in Ranked(ms) && Before(a, b) && Before(b, a)
      ensures a == b
    {
      CouplesNeverTie(ms, a, b);
    }
    SortedListingIsUnique(Ranked(ms), Ranked(ns), Before);
    ChosenDependsOnAdmissibility(Ranked(ms), Couples(ms), Couples(ns), {}, {});
  }

  // ----- Low scores

  ghost function Resembling(ms: seq<Movement>): set<Couple> {
    set c | c in Couples(ms) && c.score >= MINIMUM_RESEMBLANCE
  }

  ghost function Isolated(ms: seq<Movement>): set<Couple> {
    set c | && c in Couples(ms) && c.score < MINIMUM_RESEMBLANCE
            && Alone(c, Couples(ms)) && !c.debit.handFiled && !c.credit.handFiled
  }

  /** A couple of low score is kept exactly when it competes with no other couple and neither face
      was filed by hand; the rest is the stable choice among the couples that resemble. */
  lemma LowScoresNeverCompete(ms: seq<Movement>)
    requires DistinctIds(ms)
    ensures var kept := Elements(Paired(ms));
      && (set c | c in kept && c.score < MINIMUM_RESEMBLANCE) == Isolated(ms)
      && Stable((set c | c in kept && c.score >= MINIMUM_RESEMBLANCE), Resembling(ms))
  {
    PairedIsStable(ms);
    var kept := Elements(Paired(ms));
    var high := set c | c in kept && c.score >= MINIMUM_RESEMBLANCE;
    forall c | c in Couples(ms)
      ensures BeyondDoubt(c, Couples(ms)) <==>
        Alone(c, Couples(ms)) && !c.debit.handFiled && !c.credit.handFiled
    {
      BeyondDoubtIsAlone(ms, c);
    }
    assert forall k :: k in kept ==> k in Couples(ms);
    forall c | c in Isolated(ms)
      ensures c in kept
    {
      assert c in Candidates(ms);
      assert forall k :: k in kept && Conflict(k, c) ==> k == c;
    }
    forall c | c in Resembling(ms) && c !in high
      ensures Blocked(c, high)
    {
      assert Blocked(c, kept);
      var k :| k in kept && Conflict(k, c) && Before(k, c);
      assert k in high;
    }
  }

  // ----- Money

  /** Total of the movements whose identifier is in `ids`. */
  function TotalOf(ms: seq<Movement>, ids: set<nat>): int {
    if ms == [] then 0
    else TotalOf(ms[1..], ids) + if ms[0].id in ids then ms[0].cents else 0
  }

  lemma {:induction false} TotalOfOneMore(ms: seq<Movement>, ids: set<nat>, m: Movement)
    requires DistinctIds(ms) && m in ms && m.id !in ids
    ensures TotalOf(ms, ids + {m.id}) == TotalOf(ms, ids) + m.cents
  {
    assert ms == [ms[0]] + ms[1..];
    if ms[0] == m {
      assert forall x :: x in ms[1..] ==> x.id != m.id;
      TotalOfAgrees(ms[1..], ids, ids + {m.id});
    } else {
      assert ms[0].id != m.id;
      TotalOfOneMore(ms[1..], ids, m);
    }
  }

  lemma {:induction false} TotalOfAgrees(ms: seq<Movement>, ids: set<nat>, others: set<nat>)
    requires forall m :: m in ms ==> (m.id in ids <==> m.id in others)
    ensures TotalOf(ms, ids) == TotalOf(ms, others)
  {
    if ms != [] {
      TotalOfAgrees(ms[1..], ids, others);
    }
  }

  ghost function Ids(faces: seq<nat>): set<nat> {
    set id | id in faces
  }

  ghost predicate IsFace(id: nat, cs: seq<Couple>) {
    exists c :: c in cs && (id == c.debit.id || id == c.credit.id)
  }

  lemma {:induction false} FacesAre(cs: seq<Couple>)
    ensures forall id :: id in Faces(cs) <==> IsFace(id, cs)
  {
    if cs != [] {
      var (init, last) := (cs[..|cs| - 1], cs[|cs| - 1]);
      assert cs == init + [last];
      FacesAre(init);
      assert Faces(cs) == Faces(init) + [last.debit.id, last.credit.id];
      forall id
        ensures id in Faces(cs) <==> IsFace(id, cs)
      {
        if id == last.debit.id || id == last.credit.id {
          assert last in cs;
        }
      }
    }
  }

  /** Couples that share no face, all of them made of the movements `ms`. */
  ghost predicate Separate(ms: seq<Movement>, cs: seq<Couple>) {
    && (forall c :: c in cs ==> c in Couples(ms))
    && (forall i, j :: 0 <= i < j < |cs| ==> !Conflict(cs[i], cs[j]))
  }

  lemma LastIsApart(ms: seq<Movement>, init: seq<Couple>, last: Couple)
    requires DistinctIds(ms) && Separate(ms, init + [last])
    ensures forall c :: c in init ==> FacesApart(c, last)
  {
    var cs := init + [last];
    assert last in cs;
    CouplesAre(ms);
    forall c | c in init
      ensures FacesApart(c, last)
    {
      var i :| 0 <= i < |init| && init[i] == c;
      assert !Conflict(cs[i], cs[|init|]);
      assert c in cs;
    }
  }

  lemma {:induction false} FacesConserve(ms: seq<Movement>, cs: seq<Couple>)
    requires DistinctIds(ms) && Separate(ms, cs)
    ensures Distinct(Faces(cs))
    ensures TotalOf(ms, Ids(Faces(cs))) == 0
  {
    if cs == [] {
      TotalOfNothing(ms);
    } else {
      var (init, last) := (cs[..|cs| - 1], cs[|cs| - 1]);
      assert last in cs;
      FacesConserve(ms, init);
      assert cs == init + [last];
      LastIsApart(ms, init, last);
      FacesAre(init);
      CouplesAre(ms);
      OneMoreCouple(ms, Faces(init), last);
    }
  }

  ghost predicate FacesApart(a: Couple, b: Couple) {
    && b.debit.id != a.debit.id && b.debit.id != a.credit.id
    && b.credit.id != a.debit.id && b.credit.id != a.credit.id
  }

  lemma OneMoreCouple(ms: seq<Movement>, faces: seq<nat>, c: Couple)
    requires DistinctIds(ms) && Distinct(faces)
    requires c.debit in ms && c.credit in ms && c.debit.cents + c.credit.cents == 0
    requires c.debit.id !in faces && c.credit.id !in faces && c.debit.id != c.credit.id
    ensures Distinct(faces + [c.debit.id, c.credit.id])
    ensures TotalOf(ms, Ids(faces + [c.debit.id, c.credit.id])) == TotalOf(ms, Ids(faces))
  {
    var ids := Ids(faces);
    TotalOfOneMore(ms, ids, c.debit);
    TotalOfOneMore(ms, ids + {c.debit.id}, c.credit);
    assert Ids(faces + [c.debit.id, c.credit.id]) == ids + {c.debit.id} + {c.credit.id};
  }

  lemma {:induction false} TotalOfNothing(ms: seq<Movement>)
    ensures TotalOf(ms, Ids(Faces([]))) == 0
  {
    if ms != [] {
      TotalOfNothing(ms[1..]);
    }
  }

  /** No movement is paired twice, the paired movements add up to zero, and each couple joins two
      accounts at most four days apart. */
  lemma PairingConservesMoney(ms: seq<Movement>)
    requires DistinctIds(ms)
    ensures Distinct(Faces(Paired(ms)))
    ensures TotalOf(ms, Ids(Faces(Paired(ms)))) == 0
    ensures forall c :: c in Paired(ms) ==>
      && c.debit in ms && c.credit in ms
      && c.debit.cents + c.credit.cents == 0 && c.debit.cents < 0
      && c.debit.account != c.credit.account
      && -4 <= c.credit.day - c.debit.day <= 4
  {
    BeforeIsTotal();
    SortBySorts(Couples(ms), Before);
    SameElements(Ranked(ms), Couples(ms));
    ChosenFacts(Ranked(ms), Couples(ms), {}, {});
    CouplesAre(ms);
    FacesConserve(ms, Paired(ms));
  }
}
