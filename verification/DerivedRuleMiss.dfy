/** A label whose derived rule does not recognise it: nothing survives its reduction, it has more than
    five words, and two titles are cut in two by the five word limit. */
module DerivedRuleMiss {
  import opened Labels
  import opened LabelLaws
  import opened Rules
  import opened Text

  const MISSED: Label := ["1", "MR", "OU", "MR", "OU", "MME", "MME"]
  const MISSED_CUT: Label := ["1", "MR", "OU", "MR", "OU"]

  lemma {:induction false} NoPrefixFits(s: Label, prefixes: seq<seq<Word>>)
    requires s != []
    requires forall i :: 0 <= i < |prefixes| ==> prefixes[i] != [] && prefixes[i][0] != s[0]
    ensures PrefixWords(s, prefixes) == 0
    decreases |prefixes|
  {
    if prefixes != [] {
      NoPrefixFits(s, prefixes[1..]);
    }
  }

  lemma NoPrefixStartsWithOne(s: Label)
    requires s != [] && s[0] == "1"
    ensures WithoutPrefix(s) == s
  {
    forall i | 0 <= i < |PREFIXES|
      ensures PREFIXES[i] != [] && PREFIXES[i][0] != "1"
    {
      assert PREFIXES[i] != [] && |PREFIXES[i][0]| > 1;
    }
    NoPrefixFits(s, PREFIXES);
  }

  lemma TitleAbsent(s: Label, title: seq<Word>, w: Word)
    requires w in title && w !in s
    ensures WithoutTitle(s, title) == s
  {
    var i := Find(s, title, 0);
    WordAbsent(s, title, w, i);
  }

  lemma TitleRemoved(s: Label, title: seq<Word>, i: nat)
    requires title != [] && StandsAt(s, title, i) && i < |s|
    requires forall j :: 0 <= j < i ==> !StandsAt(s, title, j)
    ensures WithoutTitle(s, title) == WithoutTitle(s[..i] + s[i + |title|..], title)
  {
    var k := Find(s, title, 0);
    assert k == i;
  }

  ghost predicate AbsentFrom(s: Label, title: seq<Word>) {
    exists w :: w in title && w !in s
  }

  /** When one title only can stand in the words, it alone decides what is left. */
  lemma {:induction false} OneTitleOnly(s: Label, titles: seq<seq<Word>>, at: nat)
    requires Proper(titles) && at < |titles|
    requires forall i :: 0 <= i < at ==> AbsentFrom(s, titles[i])
    requires forall i :: at < i < |titles| ==> AbsentFrom(WithoutTitle(s, titles[at]), titles[i])
    ensures WithoutEach(s, titles) == WithoutTitle(s, titles[at])
    decreases |titles|
  {
    if at == 0 {
      var left := WithoutTitle(s, titles[0]);
      if |titles| > 1 {
        assert AbsentFrom(left, titles[1]);
        var w :| w in titles[1] && w !in left;
        TitleAbsent(left, titles[1], w);
        OneTitleOnly(left, titles[1..], 0);
      }
    } else {
      var w :| w in titles[0] && w !in s;
      TitleAbsent(s, titles[0], w);
      OneTitleOnly(s, titles[1..], at - 1);
    }
  }

  const COUPLE: seq<Word> := ["MR", "OU", "MME"]

  /** "MR OU MME" is found twice in the missed label, the second time once the first is gone. */
  lemma CoupleOfMissed()
    ensures WithoutTitle(MISSED, COUPLE) == ["1"]
  {
    var s := MISSED;
    assert s[3..6] == COUPLE;
    assert s[0..3][0] != "MR" && s[1..4][2] != "MME" && s[2..5][0] != "MR";
    assert !StandsAt(s, COUPLE, 0) && !StandsAt(s, COUPLE, 1) && !StandsAt(s, COUPLE, 2);
    TitleRemoved(s, COUPLE, 3);
    var t := ["1", "MR", "OU", "MME"];
    assert s[..3] + s[6..] == t;
    assert t[1..4] == COUPLE && t[0..3][0] != "MR";
    TitleRemoved(t, COUPLE, 1);
    assert t[..1] + t[4..] == ["1"];
    TitleAbsent(["1"], COUPLE, "MR");
  }

  lemma TitlesListed()
    ensures |TITLES| == 8
    ensures TITLES[2] == COUPLE && TITLES[6] == ["MR"]
    ensures "M.OU" in TITLES[0] && "M." in TITLES[1] && "MME" in TITLES[2] && "MME" in TITLES[3]
    ensures "MLLE" in TITLES[4] && "MME" in TITLES[5] && "MR" in TITLES[6] && "M." in TITLES[7]
  {
  }

  lemma AbsentOnes(s: Label, t: Label, at: nat)
    requires at == 2 || at == 6
    requires "M.OU" !in s && "M." !in s
    requires at == 6 ==> "MME" !in s && "MLLE" !in s
    requires "MME" !in t && "MLLE" !in t && "MR" !in t && "M." !in t
    ensures forall i :: 0 <= i < at ==> AbsentFrom(s, TITLES[i])
    ensures forall i :: at < i < |TITLES| ==> AbsentFrom(t, TITLES[i])
  {
    TitlesListed();
    assert AbsentFrom(s, TITLES[0]) && AbsentFrom(s, TITLES[1]);
    assert AbsentFrom(t, TITLES[3]) && AbsentFrom(t, TITLES[4]) && AbsentFrom(t, TITLES[5]);
    assert AbsentFrom(t, TITLES[6]) && AbsentFrom(t, TITLES[7]);
    if at == 6 {
      assert AbsentFrom(s, TITLES[2]) && AbsentFrom(s, TITLES[3]) && AbsentFrom(s, TITLES[4]);
      assert AbsentFrom(s, TITLES[5]);
    }
  }

  lemma OneTitleDecides(s: Label, t: Label, at: nat)
    requires at == 2 || at == 6
    requires "M.OU" !in s && "M." !in s
    requires at == 6 ==> "MME" !in s && "MLLE" !in s
    requires "MME" !in t && "MLLE" !in t && "MR" !in t && "M." !in t
    requires WithoutTitle(s, if at == 2 then COUPLE else ["MR"]) == t
    ensures WithoutTitles(s) == t
  {
    TitlesListed();
    AbsentOnes(s, t, at);
    TitlesAreNotEmpty();
    OneTitleOnly(s, TITLES, at);
  }

  lemma WordsOfMissed()
    ensures "M.OU" !in MISSED && "M." !in MISSED
    ensures "M.OU" !in MISSED_CUT && "M." !in MISSED_CUT && "MME" !in MISSED_CUT && "MLLE" !in MISSED_CUT
  {
  }

  lemma TitlesOfMissed()
    ensures WithoutTitles(MISSED) == ["1"]
  {
    WordsOfMissed();
    CoupleOfMissed();
    OneTitleDecides(MISSED, ["1"], 2);
  }

  lemma MrOfCut()
    ensures WithoutTitle(MISSED_CUT, ["MR"]) == ["1", "OU", "OU"]
  {
    var s := MISSED_CUT;
    assert s[1..2] == ["MR"] && s[0..1] == ["1"];
    assert s[..1] + s[2..] == ["1", "OU", "MR", "OU"];
    TitleRemoved(s, ["MR"], 1);
    MrLeft();
  }

  lemma MrLeft()
    ensures WithoutTitle(["1", "OU", "MR", "OU"], ["MR"]) == ["1", "OU", "OU"]
  {
    var t := ["1", "OU", "MR", "OU"];
    assert t[2..3] == ["MR"] && t[0..1] == ["1"] && t[1..2] == ["OU"];
    assert t[..2] + t[3..] == ["1", "OU", "OU"];
    TitleRemoved(t, ["MR"], 2);
    TitleAbsent(["1", "OU", "OU"], ["MR"], "MR");
  }

  lemma TitlesOfCut()
    ensures WithoutTitles(MISSED_CUT) == ["1", "OU", "OU"]
  {
    WordsOfMissed();
    MrOfCut();
    OneTitleDecides(MISSED_CUT, ["1", "OU", "OU"], 6);
  }

  lemma OneIsVolatile()
    ensures Volatile("1")
  {
    assert IsDigit("1"[0]);
  }

  lemma OuIsNoMonth()
    ensures "OU" !in MONTHS
  {
    assert forall w :: w in MONTHS ==> |w| > 2;
  }

  lemma OuIsNoNoise()
    ensures "OU" !in NOISE
  {
    assert forall w :: w in NOISE ==> |w| > 2 || w == "ID";
    var (ou, id) := ("OU", "ID");
    assert ou[0] != id[0];
  }

  lemma OuIsNotVolatile()
    ensures !Volatile("OU")
  {
    OuIsNoMonth();
    OuIsNoNoise();
    var ou := "OU";
    assert ou[0] == 'O' && ou[1] == 'U';
  }

  lemma StableOnes(one: Word, ou: Word)
    requires Volatile(one) && !Volatile(ou)
    ensures Stable([one]) == []
    ensures Stable([one, ou, ou]) == [ou, ou]
  {
    var three, two, single := [one, ou, ou], [ou, ou], [ou];
    assert [one][1..] == [] && three[1..] == two && two[1..] == single && single[1..] == [];
    assert Stable(single) == [ou] + Stable([]);
    assert Stable(two) == [ou] + Stable(single);
  }

  lemma MissedIsNormal()
    ensures Normalise(MISSED) == MISSED && Normalise(MISSED_CUT) == MISSED_CUT
    ensures First(MISSED) == MISSED_CUT
  {
    assert Upper("1") == "1" && Upper("MR") == "MR" && Upper("OU") == "OU" && Upper("MME") == "MME";
  }

  lemma CounterpartiesOfMissed()
    ensures Survivors(Normalise(MISSED)) == []
    ensures Counterparty(MISSED) == MISSED_CUT
    ensures Counterparty(MISSED_CUT) == ["OU", "OU"]
  {
    MissedIsNormal();
    NoPrefixStartsWithOne(MISSED);
    NoPrefixStartsWithOne(MISSED_CUT);
    TitlesOfMissed();
    TitlesOfCut();
    OneIsVolatile();
    OuIsNotVolatile();
    StableOnes("1", "OU");
  }

  lemma MissedTexts()
    ensures Lower(Join(["OU", "OU"])) == "ou ou"
    ensures Lower(Join(MISSED_CUT)) == "1 mr ou mr ou"
  {
    assert ["OU", "OU"][1..] == ["OU"];
    assert MISSED_CUT[1..] == ["MR", "OU", "MR", "OU"];
    assert ["MR", "OU", "MR", "OU"][1..] == ["OU", "MR", "OU"];
    assert ["OU", "MR", "OU"][1..] == ["MR", "OU"];
    assert ["MR", "OU"][1..] == ["OU"];
    assert Join(MISSED_CUT) == "1 MR OU MR OU";
    assert Join(["OU", "OU"]) == "OU OU";
  }

  lemma TextNotContained()
    ensures !Contains("1 mr ou mr ou", "ou ou")
  {
    var text := "1 mr ou mr ou";
    forall at: nat | at <= |text|
      ensures !OccursAt(text, "ou ou", at)
    {
      if at + 5 <= |text| && at != 5 {
        assert text[at..at + 5][0] == text[at];
      } else if at == 5 {
        assert text[5..10][3] == 'm' && "ou ou"[3] == 'o';
      }
    }
  }

  /** The promise that a derived rule matches its label fails outside `Derivable`. */
  lemma DerivedRuleCanMiss(rule: Rule)
    requires rule.pattern == Counterparty(MISSED)
    ensures DerivePattern(MISSED) == Pattern(rule.pattern)
    ensures !Derivable(MISSED)
    ensures !Matches(rule, MISSED)
  {
    CounterpartiesOfMissed();
    MissedTexts();
    TextNotContained();
    MissedIsNormal();
    OuInCut();
    assert |Join(MISSED_CUT)| == |Lower(Join(MISSED_CUT))|;
  }

  lemma OuInCut()
    ensures OuWords(MISSED_CUT) == 2
  {
    OuWordsSplit(["1", "MR"], ["OU", "MR", "OU"]);
    OuWordsSplit(["OU"], ["MR", "OU"]);
    OuWordsSplit(["MR"], ["OU"]);
    OuWordsSplit(["1"], ["MR"]);
    assert MISSED_CUT == ["1", "MR"] + ["OU", "MR", "OU"];
    assert ["OU", "MR", "OU"] == ["OU"] + ["MR", "OU"] && ["MR", "OU"] == ["MR"] + ["OU"];
    assert ["1", "MR"] == ["1"] + ["MR"];
    assert OuWords(["1"]) == 0 && OuWords(["MR"]) == 0 && OuWords(["OU"]) == 1;
  }
}
