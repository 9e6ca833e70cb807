/** A rule derived from a label recognises that label: the reduction, applied to its own result,
    yields a run of consecutive words of it. */
module LabelLaws {
  import opened Text
  import opened Labels

  // ----- Titles

  ghost predicate NoTitleWord(s: Label) {
    forall w :: w in s ==> !TitleWord(w)
  }

  ghost predicate Proper(titles: seq<seq<Word>>) {
    forall i :: 0 <= i < |titles| ==> titles[i] != []
  }

  lemma {:induction false} WithoutTitleWords(s: Label, title: seq<Word>)
    requires title != []
    ensures forall w :: w in WithoutTitle(s, title) ==> w in s
    ensures forall w :: w in s && w !in title ==> w in WithoutTitle(s, title)
    ensures |title| == 1 ==> title[0] !in WithoutTitle(s, title)
    decreases |s|
  {
    var i := Find(s, title, 0);
    if i == |s| {
      if |title| == 1 {
        assert title == [title[0]];
        forall j | 0 <= j < |s|
          ensures s[j] != title[0]
        {
          assert s[j..j + 1] == [s[j]];
          assert !StandsAt(s, title, j);
        }
      }
    } else {
      var cut := s[..i] + s[i + |title|..];
      assert s == s[..i] + title + s[i + |title|..];
      WithoutTitleWords(cut, title);
    }
  }

  /** A title removed stands nowhere in what is left. */
  lemma {:induction false} TitleStandsNoMore(s: Label, title: seq<Word>)
    requires title != []
    ensures forall j :: !StandsAt(WithoutTitle(s, title), title, j)
    decreases |s|
  {
    var i := Find(s, title, 0);
    if i < |s| {
      TitleStandsNoMore(s[..i] + s[i + |title|..], title);
    } else {
      assert forall j :: j >= |s| ==> !StandsAt(s, title, j);
    }
  }

  /** Words are only ever dropped, a word dropped belongs to a title, and no one-word title stays. */
  lemma {:induction false} WithoutEachWords(s: Label, titles: seq<seq<Word>>)
    requires Proper(titles)
    ensures forall w :: w in WithoutEach(s, titles) ==> w in s
    ensures forall w :: w in s && w !in WithoutEach(s, titles) ==> exists i :: 0 <= i < |titles| && w in titles[i]
    ensures forall i :: 0 <= i < |titles| && |titles[i]| == 1 ==> titles[i][0] !in WithoutEach(s, titles)
    decreases |titles|
  {
    if titles != [] {
      var next := WithoutTitle(s, titles[0]);
      WithoutTitleWords(s, titles[0]);
      WithoutEachWords(next, titles[1..]);
      forall w | w in s && w !in WithoutEach(s, titles)
        ensures exists i :: 0 <= i < |titles| && w in titles[i]
      {
        if w in next {
          var i :| 0 <= i < |titles[1..]| && w in titles[1..][i];
          assert w in titles[i + 1];
        } else {
          assert w in titles[0];
        }
      }
      forall i | 0 <= i < |titles| && |titles[i]| == 1
        ensures titles[i][0] !in WithoutEach(s, titles)
      {
        if i > 0 {
          assert titles[1..][i - 1] == titles[i];
        }
      }
    }
  }

  ghost predicate TitleWord(w: Word) {
    w in {"MLLE", "MME", "MR", "M."}
  }

  predicate OuWord(w: Word) {
    w == "OU" || w == "M.OU"
  }

  ghost predicate HasTitleWord(title: seq<Word>) {
    exists w :: w in title && TitleWord(w)
  }

  /** Every title holds a word that is also a title by itself. */
  lemma EachTitleHasATitleWord()
    ensures forall i :: 0 <= i < |TITLES| ==> HasTitleWord(TITLES[i])
    ensures forall i, w :: 0 <= i < |TITLES| && w in TITLES[i] ==> TitleWord(w) || OuWord(w)
  {
    forall i | 0 <= i < |TITLES|
      ensures HasTitleWord(TITLES[i])
    {
      var w := TITLES[i][if i < 2 then |TITLES[i]| - 1 else 0];
      assert w in TITLES[i] && TitleWord(w);
    }
  }

  lemma WithoutTitlesHasNone(s: Label)
    ensures NoTitleWord(WithoutTitles(s))
    ensures forall w :: w in WithoutTitles(s) ==> w in s
    ensures forall w :: w in s && w !in WithoutTitles(s) ==> TitleWord(w) || OuWord(w)
  {
    TitlesAreNotEmpty();
    EachTitleHasATitleWord();
    WithoutEachWords(s, TITLES);
    assert TITLES[4] == ["MLLE"] && TITLES[5] == ["MME"] && TITLES[6] == ["MR"] && TITLES[7] == ["M."];
  }

  lemma WordAbsent(s: Label, title: seq<Word>, w: Word, i: nat)
    requires w in title && w !in s
    ensures !StandsAt(s, title, i)
  {
    assert i + |title| <= |s| ==> w !in s[i..i + |title|];
  }

  lemma TitleStandsNowhere(s: Label, title: seq<Word>, i: nat)
    requires NoTitleWord(s) && HasTitleWord(title)
    ensures !StandsAt(s, title, i)
  {
    var w :| w in title && TitleWord(w);
    WordAbsent(s, title, w, i);
  }

  lemma {:induction false} NothingToRemove(s: Label, titles: seq<seq<Word>>)
    requires Proper(titles) && NoTitleWord(s)
    requires forall i :: 0 <= i < |titles| ==> HasTitleWord(titles[i])
    ensures WithoutEach(s, titles) == s
    decreases |titles|
  {
    if titles != [] {
      var i := Find(s, titles[0], 0);
      TitleStandsNowhere(s, titles[0], i);
      assert i == |s|;
      NothingToRemove(s, titles[1..]);
    }
  }

  lemma NoTitleNothingRemoved(s: Label)
    requires NoTitleWord(s)
    ensures WithoutTitles(s) == s
  {
    TitlesAreNotEmpty();
    EachTitleHasATitleWord();
    NothingToRemove(s, TITLES);
  }

  // ----- Volatile words

  lemma {:induction false} StableWords(s: Label)
    ensures forall w :: w in Stable(s) <==> w in s && !Volatile(w)
    ensures (forall w :: w in s ==> !Volatile(w)) ==> Stable(s) == s
  {
    if s != [] {
      assert s == [s[0]] + s[1..];
      StableWords(s[1..]);
    }
  }

  // ----- Normal form

  lemma NormaliseIsIdempotent(words: Label)
    ensures Normalise(Normalise(words)) == Normalise(words)
  {
    forall i | 0 <= i < |words|
      ensures Normalise(Normalise(words))[i] == Normalise(words)[i]
    {
      UpperIsIdempotent(words[i]);
    }
  }

  lemma NormalWords(words: Label, part: Label)
    requires forall w :: w in part ==> w in Normalise(words)
    ensures Normalise(part) == part
  {
    forall i | 0 <= i < |part|
      ensures Normalise(part)[i] == part[i]
    {
      assert part[i] in Normalise(words);
      var j :| 0 <= j < |words| && Normalise(words)[j] == part[i];
      UpperIsIdempotent(words[j]);
    }
  }

  lemma SurvivorsWords(s: Label)
    ensures forall w :: w in Survivors(s) ==> w in s && !Volatile(w)
    ensures NoTitleWord(Survivors(s))
  {
    WithoutTitlesHasNone(WithoutPrefix(s));
    StableWords(WithoutTitles(WithoutPrefix(s)));
  }

  lemma CleanWordsSurvive(s: Label)
    requires NoTitleWord(s) && forall w :: w in s ==> !Volatile(w)
    ensures Stable(WithoutTitles(s)) == s
  {
    NoTitleNothingRemoved(s);
    StableWords(s);
  }

  /** Words free of titles and of volatile words lose at most an operation prefix. */
  lemma CleanWordsLoseAPrefix(s: Label)
    requires NoTitleWord(s) && Normalise(s) == s && |s| <= MAX_WORDS
    requires forall w :: w in s ==> !Volatile(w)
    ensures Piece(Counterparty(s), s)
  {
    var k := SurvivorsOfCleanWords(s);
    ReducedShort(s);
    SuffixIsAPiece(s, k);
    SuffixIsAPiece(s, 0);
    assert s[0..] == s;
  }

  lemma SuffixIsAPiece(s: Label, k: nat)
    requires k <= |s|
    ensures Piece(s[k..], s)
  {
    assert s[k..|s|] == s[k..];
  }

  lemma SurvivorsOfCleanWords(s: Label) returns (k: nat)
    requires NoTitleWord(s) && forall w :: w in s ==> !Volatile(w)
    ensures k <= |s| && Survivors(s) == s[k..]
  {
    k := WithoutPrefixIsSuffix(s);
    assert forall w :: w in s[k..] ==> w in s;
    CleanWordsSurvive(s[k..]);
  }

  lemma WithoutPrefixIsSuffix(s: Label) returns (k: nat)
    ensures k <= |s| && WithoutPrefix(s) == s[k..]
  {
    k := PrefixWords(s, PREFIXES);
  }

  // ----- The operation prefix

  /** No prefix stands at the front of one listed after it. */
  ghost predicate LongestFirst(prefixes: seq<seq<Word>>) {
    forall i, j :: 0 <= i < j < |prefixes| ==> !(prefixes[i] <= prefixes[j])
  }

  lemma OneWordPrefixes()
    ensures forall i, j :: 0 <= i < j < |PREFIXES| && |PREFIXES[i]| == 1 ==> PREFIXES[i][0] != PREFIXES[j][0]
  {
  }

  lemma TwoWordPrefixes()
    ensures forall i, j :: 0 <= i < j < |PREFIXES| && |PREFIXES[i]| == 2 && |PREFIXES[j]| >= 2 ==>
      PREFIXES[i][0] != PREFIXES[j][0] || PREFIXES[i][1] != PREFIXES[j][1]
  {
  }

  lemma LongPrefixes()
    ensures forall i, j :: 0 <= i < j < |PREFIXES| && 3 <= |PREFIXES[i]| <= |PREFIXES[j]| ==>
      PREFIXES[i][1] != PREFIXES[j][1] || PREFIXES[i][2] != PREFIXES[j][2]
  {
  }

  lemma PrefixesLongestFirst()
    ensures LongestFirst(PREFIXES) && [] !in PREFIXES
  {
    OneWordPrefixes();
    TwoWordPrefixes();
    LongPrefixes();
  }

  /** `k` words are the prefix `p`, with the "DE" after it unless that is the last word. */
  ghost predicate CutsPrefix(s: Label, p: seq<Word>, k: nat) {
    p <= s && k == if |p| + 1 < |s| && s[|p|] == "DE" then |p| + 1 else |p|
  }

  /** `k` words are the longest prefix `s` starts with, or none when it starts with none. */
  ghost predicate CutsLongest(s: Label, prefixes: seq<seq<Word>>, k: nat) {
    && (forall p :: p in prefixes && p <= s ==> |p| <= k)
    && ((exists p :: p in prefixes && CutsPrefix(s, p, k)) || (k == 0 && forall p :: p in prefixes ==> !(p <= s)))
  }

  lemma {:induction false} FirstPrefixIsLongest(s: Label, prefixes: seq<seq<Word>>)
    requires LongestFirst(prefixes)
    ensures CutsLongest(s, prefixes, PrefixWords(s, prefixes))
    decreases |prefixes|
  {
    if prefixes != [] {
      var (head, rest) := (prefixes[0], prefixes[1..]);
      assert prefixes == [head] + rest;
      if head <= s {
        assert CutsPrefix(s, head, PrefixWords(s, prefixes));
        forall p | p in rest && p <= s
          ensures |p| <= |head|
        {
          assert !(head <= p);
        }
      } else {
        FirstPrefixIsLongest(s, rest);
      }
    }
  }

  /** The prefix removed is the longest one the label starts with, with the "DE" left over if any; a
      label that starts with none is left whole. */
  lemma LongestPrefixIsRemoved(s: Label) returns (k: nat)
    ensures k <= |s| && WithoutPrefix(s) == s[k..]
    ensures CutsLongest(s, PREFIXES, k)
  {
    PrefixesLongestFirst();
    FirstPrefixIsLongest(s, PREFIXES);
    k := PrefixWords(s, PREFIXES);
  }

  // ----- The derived rule, when a word survives or the label is short

  lemma ReductionOfSurvivors(words: Label)
    requires Survivors(Normalise(words)) != []
    ensures Piece(Counterparty(Counterparty(words)), Counterparty(words))
  {
    var s := Normalise(words);
    SurvivorsWords(s);
    var kept := First(Survivors(s));
    assert forall w :: w in kept ==> w in Survivors(s);
    NormalWords(words, kept);
    CleanWordsLoseAPrefix(kept);
  }

  lemma ReductionOfShortLabel(words: Label)
    requires Survivors(Normalise(words)) == [] && |words| <= MAX_WORDS
    ensures Counterparty(Counterparty(words)) == Counterparty(words)
  {
    NormaliseIsIdempotent(words);
  }

  // ----- The derived rule, when nothing survives in a long label

  function OuWords(s: Label): nat {
    if s == [] then 0
    else (if OuWord(s[0]) then 1 else 0) + OuWords(s[1..])
  }

  lemma {:induction false} OuWordsSplit(a: Label, b: Label)
    ensures OuWords(a + b) == OuWords(a) + OuWords(b)
  {
    if a == [] {
      assert a + b == b;
    } else {
      assert (a + b)[1..] == a[1..] + b;
      OuWordsSplit(a[1..], b);
    }
  }

  lemma {:induction false} OuWordsOfAll(s: Label)
    requires forall w :: w in s ==> OuWord(w)
    ensures OuWords(s) == |s|
  {
    if s != [] {
      assert s[0] in s && forall w :: w in s[1..] ==> w in s;
      OuWordsOfAll(s[1..]);
    }
  }

  lemma {:induction false} WithoutTitleDropsOu(s: Label, title: seq<Word>)
    requires title != []
    ensures OuWords(WithoutTitle(s, title)) <= OuWords(s)
    ensures |WithoutTitle(s, title)| <= |s|
    decreases |s|
  {
    var i := Find(s, title, 0);
    if i < |s| {
      var cut := s[..i] + s[i + |title|..];
      assert s == s[..i] + (title + s[i + |title|..]);
      OuWordsSplit(s[..i], title + s[i + |title|..]);
      OuWordsSplit(title, s[i + |title|..]);
      OuWordsSplit(s[..i], s[i + |title|..]);
      WithoutTitleDropsOu(cut, title);
    }
  }

  lemma {:induction false} WithoutEachDropsOu(s: Label, titles: seq<seq<Word>>)
    requires Proper(titles)
    ensures OuWords(WithoutEach(s, titles)) <= OuWords(s)
    ensures |WithoutEach(s, titles)| <= |s|
    decreases |titles|
  {
    if titles != [] {
      WithoutTitleDropsOu(s, titles[0]);
      WithoutEachDropsOu(WithoutTitle(s, titles[0]), titles[1..]);
    }
  }

  lemma {:induction false} StableDropsOu(s: Label)
    ensures OuWords(Stable(s)) <= OuWords(s)
    ensures |Stable(s)| <= |s|
  {
    if s != [] {
      StableDropsOu(s[1..]);
      if !Volatile(s[0]) {
        assert s == [s[0]] + s[1..];
        OuWordsSplit([s[0]], s[1..]);
        OuWordsSplit([s[0]], Stable(s[1..]));
      }
    }
  }

  lemma PrefixesAreShort()
    ensures forall i :: 0 <= i < |PREFIXES| ==> |PREFIXES[i]| <= MAX_WORDS
  {
  }

  /** Cutting a label after five words does not change the prefix it starts with; at most the left
      over "DE" is seen differently. */
  lemma {:induction false} PrefixOfCut(s: Label, prefixes: seq<seq<Word>>)
    requires |s| > MAX_WORDS
    requires forall i :: 0 <= i < |prefixes| ==> |prefixes[i]| <= MAX_WORDS
    ensures var (cut, k) := (s[..MAX_WORDS], PrefixWords(s, prefixes));
      var j := PrefixWords(cut, prefixes);
      cut[j..] == ["DE"] || cut[j..] <= s[k..]
    decreases |prefixes|
  {
    var cut := s[..MAX_WORDS];
    if prefixes != [] {
      var p := prefixes[0];
      assert p <= s <==> p <= cut;
      if p <= s {
        var (rest, restOfCut) := (s[|p|..], cut[|p|..]);
        assert restOfCut <= rest;
        if |rest| >= 2 && rest[0] == "DE" {
          if |restOfCut| >= 2 {
            assert cut[|p| + 1..] == restOfCut[1..] && s[|p| + 1..] == rest[1..];
          } else if |restOfCut| == 1 {
            assert restOfCut == ["DE"];
          }
        }
      } else {
        PrefixOfCut(s, prefixes[1..]);
      }
    }
  }

  /** Where nothing survives, a leading part lets only "OU" and "M.OU" survive: the middle words of
      titles cut in two. */
  lemma OnlyOuSurvives(rest: Label, part: Label)
    requires Stable(WithoutTitles(rest)) == [] && forall w :: w in part ==> w in rest
    ensures forall w :: w in Stable(WithoutTitles(part)) ==> OuWord(w)
  {
    WithoutTitlesHasNone(rest);
    StableWords(WithoutTitles(rest));
    WithoutTitlesHasNone(part);
    StableWords(WithoutTitles(part));
    forall w | w in Stable(WithoutTitles(part))
      ensures OuWord(w)
    {
      assert w in part;
      assert w in rest && w !in WithoutTitles(rest);
    }
  }

  /** The first five words of a label in which nothing survives let at most one word survive, or
      only middle words of titles. */
  lemma SurvivorsOfCut(s: Label)
    requires |s| > MAX_WORDS && Survivors(s) == []
    ensures |Survivors(s[..MAX_WORDS])| <= 1 || |Survivors(s[..MAX_WORDS])| <= OuWords(s[..MAX_WORDS])
  {
    var before := WithoutPrefixOfCut(s);
    SurvivorsOfPart(WithoutPrefix(s), before, WithoutPrefix(s[..MAX_WORDS]));
  }

  lemma WithoutPrefixOfCut(s: Label) returns (before: Label)
    requires |s| > MAX_WORDS
    ensures s[..MAX_WORDS] == before + WithoutPrefix(s[..MAX_WORDS])
    ensures |WithoutPrefix(s[..MAX_WORDS])| == 1 || WithoutPrefix(s[..MAX_WORDS]) <= WithoutPrefix(s)
  {
    PrefixesAreShort();
    PrefixOfCut(s, PREFIXES);
    var cut := s[..MAX_WORDS];
    var j := PrefixWords(cut, PREFIXES);
    before := cut[..j];
    assert cut == cut[..j] + cut[j..];
  }

  lemma SurvivorsOfPart(rest: Label, before: Label, part: Label)
    requires Stable(WithoutTitles(rest)) == []
    requires |part| == 1 || part <= rest
    ensures |Stable(WithoutTitles(part))| <= 1 || |Stable(WithoutTitles(part))| <= OuWords(before + part)
  {
    if |part| == 1 {
      WithoutTitlesKeepsShort(part);
    } else {
      OuWordsSplit(before, part);
      SurvivorsOfLeadingPart(rest, part);
    }
  }

  lemma SurvivorsOfLeadingPart(rest: Label, part: Label)
    requires Stable(WithoutTitles(rest)) == [] && part <= rest
    ensures |Stable(WithoutTitles(part))| <= OuWords(part)
  {
    assert forall w :: w in part ==> w in rest;
    OnlyOuSurvives(rest, part);
    OuWordsOfAll(Stable(WithoutTitles(part)));
    WithoutTitlesKeepsShort(part);
  }

  lemma ReductionOfLongLabel(words: Label)
    requires Survivors(Normalise(words)) == [] && |words| > MAX_WORDS
    requires OuWords(Normalise(words)[..MAX_WORDS]) <= 1
    ensures Piece(Counterparty(Counterparty(words)), Counterparty(words))
  {
    var s := Normalise(words);
    var cut := s[..MAX_WORDS];
    SurvivorsOfCut(s);
    DerivedCounterpartyOfLongLabel(words);
    assert |Survivors(cut)| <= 1;
    SurvivorsWords(cut);
    AtMostOneWordIsAPiece(Survivors(cut), cut);
  }

  lemma AtMostOneWordIsAPiece(u: Label, s: Label)
    requires |u| <= 1 && forall w :: w in u ==> w in s
    ensures Piece(u, s)
  {
    if u == [] {
      assert s[0..0] == u;
    } else {
      assert u[0] in s;
      var i :| 0 <= i < |s| && s[i] == u[0];
      assert s[i..i + 1] == u;
    }
  }

  /** What a caller can check before deriving a rule: some word survives, or the label is short, or
      its first five words hold at most one middle word of a title. */
  predicate Derivable(words: Label) {
    var s := Normalise(words);
    Survivors(s) != [] || |s| <= MAX_WORDS || OuWords(First(s)) <= 1
  }

  /** A rule derived from a label finds its own counterparty inside that of the label. */
  lemma DerivedCounterpartyIsAPiece(words: Label)
    requires Derivable(words)
    ensures Piece(Counterparty(Counterparty(words)), Counterparty(words))
  {
    var s := Normalise(words);
    if Survivors(s) != [] {
      ReductionOfSurvivors(words);
    } else if |s| <= MAX_WORDS {
      ReductionOfShortLabel(words);
      assert s[0..|s|] == s;
    } else {
      ReductionOfLongLabel(words);
    }
  }

  /** In a long label without survivor, the promise holds exactly when the survivors of its first
      five words, if any, stand together. */
  lemma DerivedCounterpartyOfLongLabel(words: Label)
    requires Survivors(Normalise(words)) == [] && |words| > MAX_WORDS
    ensures var cut := Normalise(words)[..MAX_WORDS];
      Piece(Counterparty(Counterparty(words)), Counterparty(words)) <==> Piece(Survivors(cut), cut)
  {
    var cut := Normalise(words)[..MAX_WORDS];
    NormalWords(words, cut);
    assert Normalise(cut) == cut;
    WithoutTitlesKeepsShort(WithoutPrefix(cut));
    assert Counterparty(words) == cut;
    WholeOrSurvivors(cut);
  }

  /** What reducing twice makes of a label outside `Derivable`. */
  lemma ReducedTwice(words: Label)
    requires !Derivable(words)
    ensures var cut := First(Normalise(words));
      && Counterparty(words) == cut
      && Counterparty(cut) == if Survivors(cut) == [] then cut else Survivors(cut)
  {
    var cut := First(Normalise(words));
    assert forall w :: w in cut ==> w in Normalise(words);
    NormalWords(words, cut);
    ReducedShort(cut);
  }

  lemma ReducedShort(s: Label)
    requires Normalise(s) == s && |s| <= MAX_WORDS
    ensures Counterparty(s) == if Survivors(s) == [] then s else Survivors(s)
  {
    SurvivorsAreFewer(s);
  }

  lemma SurvivorsAreFewer(s: Label)
    ensures |Survivors(s)| <= |s|
  {
    WithoutTitlesKeepsShort(WithoutPrefix(s));
  }

  lemma WholeOrSurvivors(s: Label)
    requires Normalise(s) == s && |s| <= MAX_WORDS && |Survivors(s)| <= MAX_WORDS
    ensures Piece(Counterparty(s), s) <==> Piece(Survivors(s), s)
  {
    assert s[0..|s|] == s && s[0..0] == [];
  }

  lemma WithoutTitlesKeepsShort(s: Label)
    ensures |Stable(WithoutTitles(s))| <= |s|
    ensures OuWords(Stable(WithoutTitles(s))) <= OuWords(s)
  {
    TitlesAreNotEmpty();
    WithoutEachDropsOu(s, TITLES);
    StableDropsOu(WithoutTitles(s));
  }

  lemma NothingSurvivesNothing()
    ensures Survivors([]) == []
  {
    WithoutTitlesKeepsShort(WithoutPrefix([]));
  }

  /** The counterparty is empty only for a label without any word. */
  lemma CounterpartyIsEmptyOnlyForNoWords(words: Label)
    ensures Counterparty(words) == [] <==> words == []
  {
    if words == [] {
      NothingSurvivesNothing();
      assert Normalise(words) == [];
    }
  }
}
