/** Reduces a bank label to its counterparty: operation prefix, titles, dates, months and references
    are dropped. A label is the sequence of its words. */
module Labels {
  import opened Text

  type Label = seq<Word>

  /** Operation prefixes, longest first: only the first that matches is removed. */
  const PREFIXES: seq<seq<Word>> := [
    ["VIREMENT", "INSTANTANE", "RECU", "DE"],
    ["VIREMENT", "SEPA", "RECU", "DE"],
    ["VIREMENT", "EN", "VOTRE", "FAVEUR", "DE"],
    ["VIREMENT", "EN", "VOTRE", "FAVEUR"],
    ["VIREMENT", "INSTANTANE", "RECU"],
    ["VIREMENT", "INSTANTANE"],
    ["VIREMENT", "SEPA", "EMIS"],
    ["VIREMENT", "SEPA", "RECU"],
    ["VIREMENT", "SEPA"],
    ["VIREMENT", "RECU", "DE"],
    ["VIREMENT", "RECU"],
    ["VIREMENT", "EMIS"],
    ["VIREMENT"],
    ["PAIEMENT", "PAR", "CARTE"],
    ["PAIEMENT", "CARTE"],
    ["PAIEMENT"],
    ["PRELEVEMENT", "SEPA", "DE"],
    ["PRELEVEMENT", "SEPA"],
    ["PRELEVEMENT"],
    ["PRLV", "SEPA"],
    ["PRLV"],
    ["ACHAT", "CB"],
    ["ACHAT"],
    ["RETRAIT", "CB"],
    ["RETRAIT", "DAB"],
    ["RETRAIT"],
    ["REMISE", "CHEQUE"],
    ["REMISE"],
    ["COTISATION"],
    ["FRAIS"],
    ["CB"]]

  /** Titles removed wherever they stand, in this order. */
  const TITLES: seq<seq<Word>> := [
    ["M.OU", "MME"],
    ["M.", "OU", "MME"],
    ["MR", "OU", "MME"],
    ["MME", "OU", "MR"],
    ["MLLE"],
    ["MME"],
    ["MR"],
    ["M."]]

  const MONTHS: set<Word> := {
    "JANVIER", "FEVRIER", "MARS", "AVRIL", "MAI", "JUIN", "JUILLET", "AOUT", "SEPTEMBRE", "OCTOBRE", "NOVEMBRE", "DECEMBRE"}

  const NOISE: set<Word> := {
    "REF", "REFERENCE", "MANDAT", "MDT", "RUM", "ECH", "NUM", "NUMERO", "MOTIF", "ID"}

  const MAX_WORDS := 5

  function Normalise(words: Label): (r: Label)
    ensures |r| == |words|
    ensures forall i :: 0 <= i < |words| ==> r[i] == Upper(words[i])
  {
    seq(|words|, i requires 0 <= i < |words| => Upper(words[i]))
  }

  /** How many leading words the first matching prefix takes away, with the "DE" left over if any. */
  function PrefixWords(s: Label, prefixes: seq<seq<Word>>): (k: nat)
    ensures k <= |s|
  {
    if prefixes == [] then
      0
    else if prefixes[0] <= s then
      var rest := s[|prefixes[0]|..];
      |prefixes[0]| + if |rest| >= 2 && rest[0] == "DE" then 1 else 0
    else
      PrefixWords(s, prefixes[1..])
  }

  function WithoutPrefix(s: Label): Label {
    s[PrefixWords(s, PREFIXES)..]
  }

  predicate StandsAt(s: Label, title: seq<Word>, i: nat) {
    i + |title| <= |s| && s[i..i + |title|] == title
  }

  /** The first place at or after `from` where the title stands, or the end. */
  function Find(s: Label, title: seq<Word>, from: nat): (i: nat)
    requires from <= |s|
    ensures from <= i <= |s|
    ensures i < |s| ==> StandsAt(s, title, i)
    ensures forall j :: from <= j < i ==> !StandsAt(s, title, j)
    decreases |s| - from
  {
    if from == |s| || StandsAt(s, title, from) then from else Find(s, title, from + 1)
  }

  function WithoutTitle(s: Label, title: seq<Word>): Label
    requires title != []
    decreases |s|
  {
    var i := Find(s, title, 0);
    if i == |s| then s else WithoutTitle(s[..i] + s[i + |title|..], title)
  }

  function WithoutEach(s: Label, titles: seq<seq<Word>>): Label
    requires forall i :: 0 <= i < |titles| ==> titles[i] != []
    decreases |titles|
  {
    if titles == [] then s
    else WithoutEach(WithoutTitle(s, titles[0]), titles[1..])
  }

  lemma TitlesAreNotEmpty()
    ensures forall i :: 0 <= i < |TITLES| ==> TITLES[i] != []
  {
  }

  function WithoutTitles(s: Label): Label {
    TitlesAreNotEmpty();
    WithoutEach(s, TITLES)
  }

  predicate IsDigit(c: char) {
    '0' <= c <= '9'
  }

  /** Dates, references, amounts, card masks, months and filler words. */
  predicate Volatile(word: Word) {
    || (exists i :: 0 <= i < |word| && IsDigit(word[i]))
    || (word != "" && forall i :: 0 <= i < |word| ==> word[i] == 'X' || word[i] == '*')
    || word in MONTHS
    || word in NOISE
  }

  function Stable(s: Label): Label {
    if s == [] then []
    else if Volatile(s[0]) then Stable(s[1..])
    else [s[0]] + Stable(s[1..])
  }

  /** The words left once prefix, titles and volatile words are gone. */
  function Survivors(s: Label): Label {
    Stable(WithoutTitles(WithoutPrefix(s)))
  }

  function First(s: Label): Label {
    if |s| <= MAX_WORDS then s else s[..MAX_WORDS]
  }

  function Counterparty(words: Label): Label {
    var s := Normalise(words);
    if Survivors(s) != [] then First(Survivors(s)) else First(s)
  }

  /** Takes one occurrence of the title away at each turn. */
  method RemoveTitle(s: Label, title: seq<Word>) returns (out: Label)
    requires title != []
    ensures out == WithoutTitle(s, title)
    ensures forall j :: !StandsAt(out, title, j)
  {
    out := s;
    var i := Find(out, title, 0);
    while i < |out|
      invariant i == Find(out, title, 0)
      invariant WithoutTitle(out, title) == WithoutTitle(s, title)
      decreases |out|
    {
      out := out[..i] + out[i + |title|..];
      i := Find(out, title, 0);
    }
    assert forall j :: j >= |out| ==> !StandsAt(out, title, j);
  }

  method RemoveEach(s: Label, titles: seq<seq<Word>>) returns (out: Label)
    requires forall i :: 0 <= i < |titles| ==> titles[i] != []
    ensures out == WithoutEach(s, titles)
  {
    out := s;
    for k := 0 to |titles|
      invariant WithoutEach(out, titles[k..]) == WithoutEach(s, titles)
    {
      out := RemoveTitle(out, titles[k]);
      assert titles[k..][1..] == titles[k + 1..];
    }
  }

  method RemoveTitles(s: Label) returns (out: Label)
    ensures out == WithoutTitles(s)
  {
    TitlesAreNotEmpty();
    out := RemoveEach(s, TITLES);
  }
}
