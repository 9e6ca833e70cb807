/** Words and the text they form. Casing is the ASCII one: an idempotent map on characters. */
module Text {
  type Word = string

  function UpperChar(c: char): char {
    if 'a' <= c <= 'z' then (c as int - 32) as char else c
  }

  function LowerChar(c: char): char {
    if 'A' <= c <= 'Z' then (c as int + 32) as char else c
  }

  function Upper(word: Word): (r: Word)
    ensures |r| == |word|
    ensures forall i :: 0 <= i < |word| ==> r[i] == UpperChar(word[i])
  {
    seq(|word|, i requires 0 <= i < |word| => UpperChar(word[i]))
  }

  function Lower(text: string): (r: string)
    ensures |r| == |text|
    ensures forall i :: 0 <= i < |text| ==> r[i] == LowerChar(text[i])
  {
    seq(|text|, i requires 0 <= i < |text| => LowerChar(text[i]))
  }

  lemma UpperIsIdempotent(word: Word)
    ensures Upper(Upper(word)) == Upper(word)
  {
  }

  /** The words separated by single spaces. */
  function Join(words: seq<Word>): string {
    if words == [] then ""
    else if |words| == 1 then words[0]
    else words[0] + " " + Join(words[1..])
  }

  predicate OccursAt(text: string, part: string, at: nat) {
    at + |part| <= |text| && text[at..at + |part|] == part
  }

  predicate Contains(text: string, part: string) {
    exists at: nat :: at <= |text| && OccursAt(text, part, at)
  }

  /** `part` is a run of consecutive words of `words`. */
  ghost predicate Piece(part: seq<Word>, words: seq<Word>) {
    exists i, j :: 0 <= i <= j <= |words| && words[i..j] == part
  }

  lemma {:induction false} JoinEndsWithSuffix(words: seq<Word>, i: nat)
    requires i <= |words|
    ensures |Join(words[i..])| <= |Join(words)|
    ensures Join(words)[|Join(words)| - |Join(words[i..])|..] == Join(words[i..])
  {
    if i == 0 {
      assert words[0..] == words;
    } else if i == |words| {
    } else {
      JoinEndsWithSuffix(words[1..], i - 1);
      assert words[1..][i - 1..] == words[i..];
    }
  }

  lemma {:induction false} JoinStartsWithPrefix(words: seq<Word>, j: nat)
    requires j <= |words|
    ensures Join(words[..j]) <= Join(words)
  {
    if j > 1 {
      JoinStartsWithPrefix(words[1..], j - 1);
      assert words[..j][1..] == words[1..][..j - 1];
    } else if j == 1 {
      assert words[..1] == [words[0]];
    }
  }

  /** A run of consecutive words is a piece of the text, whatever the case it is compared in. */
  lemma PieceIsContained(part: seq<Word>, words: seq<Word>)
    requires Piece(part, words)
    ensures Contains(Lower(Join(words)), Lower(Join(part)))
  {
    var i, j :| 0 <= i <= j <= |words| && words[i..j] == part;
    JoinStartsWithPrefix(words, j);
    JoinEndsWithSuffix(words[..j], i);
    assert words[..j][i..] == part;
    var at := |Join(words[..j])| - |Join(part)|;
    assert Join(words)[at..at + |Join(part)|] == Join(part);
    assert OccursAt(Lower(Join(words)), Lower(Join(part)), at);
  }

  // ----- Texts inside texts, word by word

  /** What splitting a text at its spaces gives. */
  predicate SplitWords(words: seq<Word>) {
    forall i :: 0 <= i < |words| ==> words[i] != "" && ' ' !in words[i]
  }

  /** The text of `part` begins the text of `words`: equal words, the last one begun at least. */
  predicate Begins(part: seq<Word>, words: seq<Word>) {
    part != [] ==>
      words != [] && if |part| == 1 then part[0] <= words[0] else part[0] == words[0] && Begins(part[1..], words[1..])
  }

  predicate EndsWith(word: Word, end: Word) {
    |end| <= |word| && word[|word| - |end|..] == end
  }

  /** Two words or more stand in others: the first ends a word, the last begins one, the others between. */
  predicate StandsIn(part: seq<Word>, words: seq<Word>)
    requires part != []
  {
    words != [] && ((EndsWith(words[0], part[0]) && Begins(part[1..], words[1..])) || StandsIn(part, words[1..]))
  }

  lemma SpaceStops(w: Word, v: Word, tail: string)
    requires ' ' !in w && w <= v + tail && (tail == "" || tail[0] == ' ')
    ensures w <= v
  {
    assert forall k :: 0 <= k < |w| ==> w[k] == (v + tail)[k] && w[k] in w;
    assert tail != "" ==> (v + tail)[|v|] == ' ';
    assert |w| <= |v|;
    assert (v + tail)[..|w|] == v[..|w|];
  }

  lemma FirstSpace(w: Word, v: Word, rest: string, tail: string)
    requires ' ' !in w && ' ' !in v
    requires w + " " + rest <= v + tail && (tail == "" || tail[0] == ' ')
    ensures w == v && tail != "" && rest <= tail[1..]
  {
    var (a, b) := (w + " " + rest, v + tail);
    assert w <= b;
    SpaceStops(w, v, tail);
    assert a[|w|] == ' ' == b[|w|];
    assert forall k :: 0 <= k < |v| ==> v[k] == b[k] && v[k] in v;
    assert |w| == |v|;
    assert a[|w| + 1..] == rest && b[|w| + 1..] == tail[1..];
  }

  function Rest(words: seq<Word>): string
    requires words != []
  {
    if |words| == 1 then "" else " " + Join(words[1..])
  }

  lemma JoinIs(words: seq<Word>)
    requires words != []
    ensures Join(words) == words[0] + Rest(words)
  {
  }

  lemma WordBegins(w: Word, words: seq<Word>)
    requires ' ' !in w && words != []
    ensures w <= Join(words) <==> w <= words[0]
  {
    JoinIs(words);
    if w <= Join(words) {
      SpaceStops(w, words[0], Rest(words));
    }
  }

  lemma {:induction false} BeginsText(part: seq<Word>, words: seq<Word>)
    requires SplitWords(part) && SplitWords(words)
    ensures Join(part) <= Join(words) <==> Begins(part, words)
  {
    if part == [] || words == [] {
      assert part != [] ==> part[0] in part;
    } else if |part| == 1 {
      assert part[0] in part;
      WordBegins(part[0], words);
    } else {
      assert part[0] in part && words[0] in words;
      JoinIs(part);
      JoinIs(words);
      BeginsText(part[1..], words[1..]);
      if Join(part) <= Join(words) {
        assert Join(part) == part[0] + " " + Join(part[1..]);
        FirstSpace(part[0], words[0], Join(part[1..]), Rest(words));
      }
    }
  }

  lemma OccursLater(text: string, part: string, from: nat, at: nat)
    requires from <= at && from <= |text|
    ensures OccursAt(text, part, at) <==> OccursAt(text[from..], part, at - from)
  {
    if at + |part| <= |text| {
      assert text[at..at + |part|] == text[from..][at - from..at - from + |part|];
    }
  }

  lemma OccursAsPrefix(text: string, part: string, at: nat)
    requires at <= |text|
    ensures OccursAt(text, part, at) <==> part <= text[at..]
  {
    if part <= text[at..] {
      assert text[at..][..|part|] == text[at..at + |part|];
    }
    if OccursAt(text, part, at) {
      assert text[at..][..|part|] == part;
    }
  }

  lemma Tails(words: seq<Word>)
    requires words != []
    ensures Join(words) == words[0] + Rest(words)
    ensures forall at :: 0 <= at <= |words[0]| ==> Join(words)[at..] == words[0][at..] + Rest(words)
    ensures |words| > 1 ==> Join(words)[|words[0]| + 1..] == Join(words[1..])
  {
    JoinIs(words);
  }

  /** An occurrence that starts inside the first word. */
  lemma FirstWordEnds(part: seq<Word>, words: seq<Word>, at: nat)
    requires |part| >= 2 && SplitWords(part) && SplitWords(words) && words != [] && at <= |words[0]|
    ensures Join(part) <= words[0][at..] + Rest(words) <==> words[0][at..] == part[0] && Begins(part[1..], words[1..])
  {
    var end := words[0][at..];
    assert forall k :: 0 <= k < |end| ==> end[k] in words[0];
    JoinIs(part);
    BeginsText(part[1..], words[1..]);
    SpacedPrefix(part[0], end, Join(part[1..]), Rest(words));
    assert Begins(part[1..], words[1..]) ==> |words| > 1;
    assert |words| > 1 ==> Rest(words)[1..] == Join(words[1..]);
    assert |words| == 1 ==> Rest(words) == "";
  }

  lemma SpacedPrefix(w: Word, v: Word, rest: string, tail: string)
    requires ' ' !in w && ' ' !in v && (tail == "" || tail[0] == ' ')
    ensures w + (" " + rest) <= v + tail <==> w == v && tail != "" && rest <= tail[1..]
  {
    assert w + (" " + rest) == w + " " + rest;
    if w + (" " + rest) <= v + tail {
      FirstSpace(w, v, rest, tail);
    }
    if w == v && tail != "" && rest <= tail[1..] {
      assert v + tail == (w + " ") + tail[1..];
    }
  }

  lemma {:induction false} OccurrenceStands(part: seq<Word>, words: seq<Word>, at: nat)
    requires |part| >= 2 && SplitWords(part) && SplitWords(words) && words != []
    requires OccursAt(Join(words), Join(part), at)
    ensures StandsIn(part, words)
    decreases |words|
  {
    var first := words[0];
    Tails(words);
    if at > |first| {
      assert |words| > 1;
      OccursLater(Join(words), Join(part), |first| + 1, at);
      OccurrenceStands(part, words[1..], at - |first| - 1);
    } else {
      OccursAsPrefix(Join(words), Join(part), at);
      FirstWordEnds(part, words, at);
      assert EndsWith(first, part[0]);
    }
  }

  lemma StandingInFront(part: seq<Word>, words: seq<Word>) returns (at: nat)
    requires |part| >= 2 && SplitWords(part) && SplitWords(words) && words != []
    requires EndsWith(words[0], part[0]) && Begins(part[1..], words[1..])
    ensures OccursAt(Join(words), Join(part), at)
  {
    Tails(words);
    at := |words[0]| - |part[0]|;
    FirstWordEnds(part, words, at);
    OccursAsPrefix(Join(words), Join(part), at);
  }

  lemma {:induction false} StandingOccurs(part: seq<Word>, words: seq<Word>) returns (at: nat)
    requires |part| >= 2 && SplitWords(part) && SplitWords(words)
    requires StandsIn(part, words)
    ensures OccursAt(Join(words), Join(part), at)
    decreases |words|
  {
    var first := words[0];
    Tails(words);
    if EndsWith(first, part[0]) && Begins(part[1..], words[1..]) {
      at := StandingInFront(part, words);
    } else {
      assert |words| > 1;
      var n := StandingOccurs(part, words[1..]);
      at := |first| + 1 + n;
      OccursLater(Join(words), Join(part), |first| + 1, at);
    }
  }

  /** A text of two words or more is contained in another exactly when its words stand in it. */
  lemma ContainedExactlyWhenStanding(part: seq<Word>, words: seq<Word>)
    requires |part| >= 2 && SplitWords(part) && SplitWords(words)
    ensures Contains(Join(words), Join(part)) <==> StandsIn(part, words)
  {
    if StandsIn(part, words) {
      var at := StandingOccurs(part, words);
      assert OccursAt(Join(words), Join(part), at);
    }
    if at: nat :| at <= |Join(words)| && OccursAt(Join(words), Join(part), at) {
      assert Join(part) != "";
      OccurrenceStands(part, words, at);
    }
  }

  function LowerWords(words: seq<Word>): (r: seq<Word>)
    ensures |r| == |words|
    ensures forall i :: 0 <= i < |words| ==> r[i] == Lower(words[i])
  {
    seq(|words|, i requires 0 <= i < |words| => Lower(words[i]))
  }

  lemma {:induction false} LowerOfJoin(words: seq<Word>)
    ensures Lower(Join(words)) == Join(LowerWords(words))
  {
    if |words| >= 2 {
      LowerOfJoin(words[1..]);
      assert LowerWords(words)[1..] == LowerWords(words[1..]);
    }
  }

  lemma LowerKeepsWords(words: seq<Word>)
    requires SplitWords(words)
    ensures SplitWords(LowerWords(words))
  {
    forall i | 0 <= i < |words|
      ensures LowerWords(words)[i] != "" && ' ' !in LowerWords(words)[i]
    {
      assert forall k :: 0 <= k < |words[i]| ==> words[i][k] in words[i];
    }
  }
}
