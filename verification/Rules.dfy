/** Categorisation rules: when a rule matches a label, and which rule wins. */
module Rules {
  import opened Labels
  import opened Text
  import opened Wrappers

  const PATTERN_MAX_LENGTH := 140

  datatype Rule = Rule(
    id: nat, owner: nat, pattern: Label, category: nat, priority: int, createdAt: int)

  datatype PatternResult = Pattern(words: Label) | EmptyPattern | PatternTooLong

  /** Compares counterparties, not raw labels, ignoring case. */
  predicate Matches(rule: Rule, words: Label) {
    Contains(Lower(Join(Counterparty(words))), Lower(Join(Counterparty(rule.pattern))))
  }

  predicate RankLe(a: Rule, b: Rule) {
    || a.priority < b.priority
    || (a.priority == b.priority
        && (a.createdAt < b.createdAt || (a.createdAt == b.createdAt && a.id <= b.id)))
  }

  /** How a rule is tested against a label; the program uses `Matches`. */
  type Test = (Rule, Label) -> bool

  /** The matching rule of highest rank; between equals, the last. */
  function Select(words: Label, rules: seq<Rule>, fits: Test): Option<Rule> {
    if rules == [] then
      None
    else
      var best := Select(words, rules[..|rules| - 1], fits);
      var last := rules[|rules| - 1];
      if fits(last, words) && (best.None? || RankLe(best.value, last)) then Some(last) else best
  }

  /** The rule a row ends up with when all rules are applied one after another. */
  function FirstMatch(words: Label, rules: seq<Rule>, fits: Test): Option<Rule> {
    if rules == [] then None
    else if fits(rules[0], words) then Some(rules[0])
    else FirstMatch(words, rules[1..], fits)
  }

  /** The pattern kept for a rule derived from a label. */
  function DerivePattern(words: Label): PatternResult {
    var c := Counterparty(words);
    if Join(c) == "" then EmptyPattern
    else if |Join(c)| > PATTERN_MAX_LENGTH then PatternTooLong
    else Pattern(c)
  }
}
