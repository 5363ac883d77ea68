/**
 * LifelikeCaRulestring.ts: a life-like rule as text, the survival counts and
 * the birth counts separated by `/`, as in "23/3" for the Game of Life. The
 * pattern parts are read and written as in the generation rulestring.
 */
module LifelikeCaRulestring {
  import opened Wrappers
  import opened EcmaScript
  import opened Ascii
  import opened LifelikeCa
  import GenerationCaRulestring

  /** The two `/`-separated parts getRulestring writes. */
  function RulestringParts(rule: LifelikeCaRule): seq<string>
  {
    [GenerationCaRulestring.PatternString(rule.survivalPattern), GenerationCaRulestring.PatternString(rule.birthPattern)]
  }

  /** getRulestring. */
  function GetRulestring(rule: LifelikeCaRule): string
  {
    Join(RulestringParts(rule), '/')
  }

  /** The patterns of a split rulestring; parts after the second are ignored. */
  function ParseParts(parts: seq<string>): (r: Option<LifelikeCaRule>)
    requires |parts| >= 2
    ensures r.Some? <==> GenerationCaRulestring.DigitString(parts[0]) && GenerationCaRulestring.DigitString(parts[1])
  {
    var survivalPattern := GenerationCaRulestring.DigitArrayPart(parts[0]);
    var birthPattern := GenerationCaRulestring.DigitArrayPart(parts[1]);
    if survivalPattern.None? || birthPattern.None? then None
    else Some(LifelikeCaRule(birthPattern.value, survivalPattern.value))
  }

  /**
   * parseRulestring: the trimmed text must be ASCII and hold a `/`; with a
   * single part, `Array.from(undefined)` throws in the source.
   */
  function ParseRulestring(rulestring: string): (r: Completion<Option<LifelikeCaRule>>)
    ensures !AllAscii(Trim(rulestring)) ==> r == Normal(None)
    ensures r.Throw? <==> AllAscii(Trim(rulestring)) && '/' !in Trim(rulestring)
    ensures r.Normal? && r.value.Some? ==>
      AllAscii(Trim(rulestring)) && |Split(Trim(rulestring), '/')| >= 2
      && r.value == ParseParts(Split(Trim(rulestring), '/'))
  {
    var trimmed := Trim(rulestring);
    if !AllAscii(trimmed) then Normal(None)
    else
      var parts := Split(trimmed, '/');
      SplitCount(trimmed, '/');
      if |parts| < 2 then Throw("TypeError: undefined is not iterable")
      else Normal(ParseParts(parts))
  }

  /** Parts after the second do not change the parse. */
  lemma ParsePartsIgnoresExtra(parts: seq<string>)
    requires |parts| >= 2
    ensures ParseParts(parts) == ParseParts(parts[..2])
  {
  }

  /** A rule a rulestring can hold exactly: both patterns canonical. */
  predicate CanonicalRule(rule: LifelikeCaRule)
  {
    GenerationCaRulestring.CanonicalPattern(rule.survivalPattern)
    && GenerationCaRulestring.CanonicalPattern(rule.birthPattern)
  }

  /** Whatever parses is canonical, so its rulestring parses back to it. */
  lemma ParsedRuleIsCanonical(rulestring: string, rule: LifelikeCaRule)
    requires ParseRulestring(rulestring) == Normal(Some(rule))
    ensures CanonicalRule(rule)
  {
    var parts := Split(Trim(rulestring), '/');
    GenerationCaRulestring.DigitArrayPartCanonical(parts[0]);
    GenerationCaRulestring.DigitArrayPartCanonical(parts[1]);
  }

  /** Each part is ASCII and free of `/`. */
  lemma RulestringPartsPlain(rule: LifelikeCaRule)
    requires CanonicalRule(rule)
    ensures forall p :: p in RulestringParts(rule) ==> AllAscii(p) && '/' !in p
  {
    GenerationCaRulestring.PatternStringOfDigits(rule.survivalPattern);
    GenerationCaRulestring.PatternStringOfDigits(rule.birthPattern);
  }

  /** The rulestring of a canonical rule splits back into its two parts. */
  lemma GetRulestringParts(rule: LifelikeCaRule)
    requires CanonicalRule(rule)
    ensures Split(GetRulestring(rule), '/') == RulestringParts(rule)
  {
    RulestringPartsPlain(rule);
    SplitJoin(RulestringParts(rule), '/');
  }

  /** The rulestring of a canonical rule starts with a digit or `/` and ends with a digit or `/`. */
  lemma GetRulestringUnpadded(rule: LifelikeCaRule)
    requires CanonicalRule(rule)
    ensures Unpadded(GetRulestring(rule))
  {
    var parts := RulestringParts(rule);
    assert Join(parts[1..], '/') == parts[1];
    GenerationCaRulestring.PatternStringUnpadded(rule.survivalPattern);
    GenerationCaRulestring.PatternStringUnpadded(rule.birthPattern);
    UnpaddedAround(parts[0], '/', parts[1]);
  }

  /** The rulestring of a canonical rule is ASCII and has no surrounding whitespace. */
  lemma GetRulestringPlain(rule: LifelikeCaRule)
    requires CanonicalRule(rule)
    ensures AllAscii(GetRulestring(rule)) && Trim(GetRulestring(rule)) == GetRulestring(rule)
  {
    RulestringPartsPlain(rule);
    JoinAscii(RulestringParts(rule), '/');
    GetRulestringUnpadded(rule);
    TrimUnpadded(GetRulestring(rule));
  }

  /** For a canonical rule, parsing its rulestring gives the rule back: "23/3"
      is survival [2, 3] and birth [3]. */
  lemma ParseRulestringRoundTrip(rule: LifelikeCaRule)
    requires CanonicalRule(rule)
    ensures ParseRulestring(GetRulestring(rule)) == Normal(Some(rule))
  {
    GetRulestringPlain(rule);
    GetRulestringParts(rule);
    GenerationCaRulestring.DigitArrayPartOfPatternString(rule.survivalPattern);
    GenerationCaRulestring.DigitArrayPartOfPatternString(rule.birthPattern);
  }

  /** The Game of Life's rule is canonical, so "23/3" stands for it. */
  lemma GameOfLifeRulestring()
    ensures CanonicalRule(GameOfLife())
    ensures ParseRulestring(GetRulestring(GameOfLife())) == Normal(Some(GameOfLife()))
  {
    ParseRulestringRoundTrip(GameOfLife());
  }
}
