/**
 * GenerationCaRulestring.ts: a generation rule as text, the survival counts,
 * the birth counts and the state count separated by `/`, as in "23/3/8".
 * Each pattern part is a run of single decimal digits.
 */
module GenerationCaRulestring {
  import opened Wrappers
  import opened EcmaScript
  import opened Ascii
  import opened Sequences
  import opened GenerationCa

  /** `Array.from(part).map(value => parseInt(value))`: each character on its
      own, NaN (`None`) for anything but a decimal digit. */
  function ParsedChars(part: string): (parsed: seq<Option<int>>)
    ensures |parsed| == |part|
  {
    seq(|part|, i requires 0 <= i < |part| => ParseInt([part[i]], 0))
  }

  /** Every character is a decimal digit. */
  predicate DigitString(part: string)
  {
    forall i :: 0 <= i < |part| ==> '0' <= part[i] <= '9'
  }

  /** The counts of a pattern part, one per character. */
  function DigitValues(part: string): (values: seq<int>)
    requires DigitString(part)
    ensures |values| == |part|
    ensures forall i :: 0 <= i < |part| ==> values[i] == part[i] as int - '0' as int
  {
    seq(|part|, i requires 0 <= i < |part| => part[i] as int - '0' as int)
  }

  /**
   * getDigitArrayPart: the parsed characters, without repeats, sorted
   * ascending; null when any character parsed to NaN. (`unique` keeps a NaN
   * when there is one, so the NaN test may as well look before it.)
   */
  function DigitArrayPart(part: string): (r: Option<seq<int>>)
    ensures r.Some? <==> DigitString(part)
  {
    var parsed := ParsedChars(part);
    if exists i :: 0 <= i < |parsed| && parsed[i].None? then
      assert !DigitString(part) by {
        var i :| 0 <= i < |parsed| && parsed[i].None?;
        ParseIntOfChar(part[i]);
      }
      None
    else
      assert DigitString(part) by {
        forall i | 0 <= i < |part|
          ensures '0' <= part[i] <= '9'
        {
          assert parsed[i].Some?;
          ParseIntOfChar(part[i]);
        }
      }
      Some(SortAscending(Unique(ParsedValues(parsed))))
  }

  /** The numbers of a list of parses that all succeeded. */
  function ParsedValues(parsed: seq<Option<int>>): (values: seq<int>)
    requires forall i :: 0 <= i < |parsed| ==> parsed[i].Some?
    ensures |values| == |parsed| && forall i :: 0 <= i < |parsed| ==> parsed[i] == Some(values[i])
  {
    seq(|parsed|, i requires 0 <= i < |parsed| => parsed[i].value)
  }

  /** A digit part reads as the sorted distinct values of its digits. */
  lemma DigitArrayPartOfDigits(part: string)
    requires DigitString(part)
    ensures DigitArrayPart(part) == Some(SortAscending(Unique(DigitValues(part))))
  {
    ParsedDigits(part);
    var parsed := ParsedChars(part);
    assert forall i :: 0 <= i < |parsed| ==> parsed[i].Some?;
    assert ParsedValues(parsed) == DigitValues(part);
  }

  /** Each character parses to its digit value. */
  lemma ParsedDigits(part: string)
    requires DigitString(part)
    ensures forall i :: 0 <= i < |part| ==> ParsedChars(part)[i] == Some(DigitValues(part)[i])
  {
    forall i | 0 <= i < |part|
      ensures ParsedChars(part)[i] == Some(DigitValues(part)[i])
    {
      ParsedDigitAt(part, i);
    }
  }

  lemma ParsedDigitAt(part: string, i: int)
    requires DigitString(part) && 0 <= i < |part|
    ensures ParsedChars(part)[i] == Some(DigitValues(part)[i])
  {
    var c := part[i];
    assert '0' <= c <= '9';
    ParseIntOfChar(c);
    assert ParsedChars(part)[i] == ParseInt([c], 0);
  }

  /** A digit part reads as its distinct digit values in ascending order. */
  lemma DigitArrayPartSpec(part: string)
    requires DigitString(part)
    ensures var p := DigitArrayPart(part).value;
      StrictlyAscending(p) && forall x :: x in p <==> x in DigitValues(part)
  {
    DigitArrayPartOfDigits(part);
    var u := Unique(DigitValues(part));
    var p := SortAscending(u);
    DistinctOfPermutation(u, p);
    StrictlyAscendingIff(p);
    forall x
      ensures x in p <==> x in u
    {
      assert x in p <==> x in multiset(p);
      assert x in u <==> x in multiset(u);
    }
  }

  /** Order and repetition of the digits do not matter: parts with the same
      digits read as the same pattern, so "32", "23" and "332" all give [2, 3]. */
  lemma DigitArrayPartSameDigits(a: string, b: string)
    requires DigitString(a) && DigitString(b)
    requires forall x :: x in DigitValues(a) <==> x in DigitValues(b)
    ensures DigitArrayPart(a) == DigitArrayPart(b)
  {
    DigitArrayPartSpec(a);
    DigitArrayPartSpec(b);
    SameMembersStrictlyAscending(DigitArrayPart(a).value, DigitArrayPart(b).value);
  }

  /** A pattern of counts 0 to 9 without repeats, ascending: what a pattern part parses to. */
  predicate CanonicalPattern(pattern: seq<int>)
  {
    StrictlyAscending(pattern) && forall i :: 0 <= i < |pattern| ==> 0 <= pattern[i] <= 9
  }

  /** Whatever a pattern part parses to is canonical. */
  lemma DigitArrayPartCanonical(part: string)
    requires DigitString(part)
    ensures CanonicalPattern(DigitArrayPart(part).value)
  {
    DigitArrayPartSpec(part);
    var p := DigitArrayPart(part).value;
    forall i | 0 <= i < |p|
      ensures 0 <= p[i] <= 9
    {
      assert p[i] in p;
      assert p[i] in DigitValues(part);
    }
  }

  /** getPatternString: `pattern.join("")`, each count written in decimal. */
  function PatternString(pattern: seq<int>): string
  {
    if pattern == [] then "" else IntToString(pattern[0], 10) + PatternString(pattern[1..])
  }

  /** A pattern of counts 0 to 9 is written one digit character per count. */
  lemma {:induction false} PatternStringOfDigits(pattern: seq<int>)
    requires forall i :: 0 <= i < |pattern| ==> 0 <= pattern[i] <= 9
    ensures |PatternString(pattern)| == |pattern|
    ensures DigitString(PatternString(pattern)) && AllAscii(PatternString(pattern))
    ensures forall i :: 0 <= i < |pattern| ==> PatternString(pattern)[i] as int - '0' as int == pattern[i]
  {
    if pattern != [] {
      PatternStringOfDigits(pattern[1..]);
      var rest := PatternString(pattern[1..]);
      assert IntToString(pattern[0], 10) == [DigitChar(pattern[0])];
      assert PatternString(pattern) == [DigitChar(pattern[0])] + rest;
      forall i | 1 <= i < |pattern|
        ensures PatternString(pattern)[i] as int - '0' as int == pattern[i]
      {
        assert PatternString(pattern)[i] == rest[i - 1];
        assert pattern[1..][i - 1] == pattern[i];
      }
    }
  }

  /** A pattern of counts 0 to 9 is written without surrounding whitespace. */
  lemma PatternStringUnpadded(pattern: seq<int>)
    requires forall i :: 0 <= i < |pattern| ==> 0 <= pattern[i] <= 9
    ensures Unpadded(PatternString(pattern))
  {
    PatternStringOfDigits(pattern);
    var s := PatternString(pattern);
    if s != [] {
      assert '0' <= s[0] <= '9' && '0' <= s[|s| - 1] <= '9';
    }
  }

  /** The digits of a written pattern of counts 0 to 9 are the counts. */
  lemma DigitValuesOfPatternString(pattern: seq<int>)
    requires forall i :: 0 <= i < |pattern| ==> 0 <= pattern[i] <= 9
    ensures DigitString(PatternString(pattern)) && DigitValues(PatternString(pattern)) == pattern
  {
    PatternStringOfDigits(pattern);
  }

  /** A canonical pattern survives being written and read back. */
  lemma DigitArrayPartOfPatternString(pattern: seq<int>)
    requires CanonicalPattern(pattern)
    ensures DigitArrayPart(PatternString(pattern)) == Some(pattern)
  {
    DigitValuesOfPatternString(pattern);
    DigitArrayPartOfDigits(PatternString(pattern));
    StrictlyAscendingIff(pattern);
    UniqueOfDistinct(pattern);
    SortOfAscending(pattern);
  }

  /** getNumericPart: lenient parseInt, NaN (`None`) when nothing parses. */
  function NumericPart(part: string): Option<int>
  {
    ParseInt(part, 0)
  }

  /** The three `/`-separated parts getRulestring writes. */
  function RulestringParts(rule: GenerationCaRule): seq<string>
  {
    [PatternString(rule.survivalPattern), PatternString(rule.birthPattern), IntToString(rule.stateCount, 10)]
  }

  /** getRulestring. */
  function GetRulestring(rule: GenerationCaRule): string
  {
    Join(RulestringParts(rule), '/')
  }

  /** The fields of a split rulestring, as parseRulestring reads them once at
      least two parts exist. A missing third part is `parseInt(undefined)`,
      NaN; a fourth part and beyond are ignored. Empty patterns are arrays,
      and so truthy. */
  function ParseParts(parts: seq<string>): (r: Option<GenerationCaRule>)
    requires |parts| >= 2
    ensures r.Some? <==> DigitString(parts[0]) && DigitString(parts[1])
                         && |parts| >= 3 && Truthy(NumericPart(parts[2]))
  {
    var survivalPattern := DigitArrayPart(parts[0]);
    var birthPattern := DigitArrayPart(parts[1]);
    var stateCount := if |parts| >= 3 then NumericPart(parts[2]) else None;
    if survivalPattern.None? || birthPattern.None? || !Truthy(stateCount) then None
    else Some(GenerationCaRule(birthPattern.value, stateCount.value, survivalPattern.value))
  }

  /**
   * parseRulestring: the trimmed text must be ASCII and hold a `/`; with a
   * single part, `Array.from(undefined)` throws in the source.
   */
  function ParseRulestring(rulestring: string): (r: Completion<Option<GenerationCaRule>>)
    ensures !AllAscii(Trim(rulestring)) ==> r == Normal(None)
    ensures r.Throw? <==> AllAscii(Trim(rulestring)) && '/' !in Trim(rulestring)
    ensures r.Normal? && r.value.Some? ==>
      AllAscii(Trim(rulestring)) && |Split(Trim(rulestring), '/')| >= 2
      && r.value == ParseParts(Split(Trim(rulestring), '/'))
  {
    var trimmed := Trim(rulestring);
    if !AllAscii(trimmed) then Normal(None)
    else
      var parts := Split(trimmed, '/');
      SplitCount(trimmed, '/');
      if |parts| < 2 then Throw("TypeError: undefined is not iterable")
      else Normal(ParseParts(parts))
  }

  /** Parts after the third do not change the parse. */
  lemma ParsePartsIgnoresExtra(parts: seq<string>)
    requires |parts| >= 3
    ensures ParseParts(parts) == ParseParts(parts[..3])
  {
  }

  /** A rule a rulestring can hold exactly: canonical patterns and a nonzero state count. */
  predicate CanonicalRule(rule: GenerationCaRule)
  {
    CanonicalPattern(rule.survivalPattern) && CanonicalPattern(rule.birthPattern) && rule.stateCount != 0
  }

  /** Whatever parses is canonical; with the round trip below, formatting a
      parsed rule gives the canonical rulestring, which parses to the same rule. */
  lemma ParsedRuleIsCanonical(rulestring: string, rule: GenerationCaRule)
    requires ParseRulestring(rulestring) == Normal(Some(rule))
    ensures CanonicalRule(rule)
  {
    var parts := Split(Trim(rulestring), '/');
    DigitArrayPartCanonical(parts[0]);
    DigitArrayPartCanonical(parts[1]);
  }

  /** Each part is ASCII and free of `/`. */
  lemma RulestringPartsPlain(rule: GenerationCaRule)
    requires CanonicalRule(rule)
    ensures forall p :: p in RulestringParts(rule) ==> AllAscii(p) && '/' !in p
  {
    PatternStringOfDigits(rule.survivalPattern);
    PatternStringOfDigits(rule.birthPattern);
    IntToStringAscii(rule.stateCount);
  }

  /** Joining three parts with `/`, written out. */
  lemma JoinThree(parts: seq<string>)
    requires |parts| == 3
    ensures Join(parts, '/') == parts[0] + "/" + (parts[1] + "/" + parts[2])
  {
    assert Join(parts[2..], '/') == parts[2];
  }

  /** The rulestring of a canonical rule splits back into its three parts. */
  lemma GetRulestringParts(rule: GenerationCaRule)
    requires CanonicalRule(rule)
    ensures Split(GetRulestring(rule), '/') == RulestringParts(rule)
  {
    RulestringPartsPlain(rule);
    SplitJoin(RulestringParts(rule), '/');
  }

  /** The rulestring of a canonical rule starts with a digit or `/` and ends with a digit. */
  lemma GetRulestringUnpadded(rule: GenerationCaRule)
    requires CanonicalRule(rule)
    ensures Unpadded(GetRulestring(rule))
  {
    var parts := RulestringParts(rule);
    JoinThree(parts);
    PatternStringUnpadded(rule.survivalPattern);
    PatternStringUnpadded(rule.birthPattern);
    IntToStringUnpadded(rule.stateCount);
    UnpaddedAround(parts[1], '/', parts[2]);
    UnpaddedAround(parts[0], '/', parts[1] + "/" + parts[2]);
  }

  /** The rulestring of a canonical rule is ASCII and has no surrounding whitespace. */
  lemma GetRulestringPlain(rule: GenerationCaRule)
    requires CanonicalRule(rule)
    ensures AllAscii(GetRulestring(rule)) && Trim(GetRulestring(rule)) == GetRulestring(rule)
  {
    RulestringPartsPlain(rule);
    JoinAscii(RulestringParts(rule), '/');
    GetRulestringUnpadded(rule);
    TrimUnpadded(GetRulestring(rule));
  }

  /** For a canonical rule, parsing its rulestring gives the rule back. */
  lemma ParseRulestringRoundTrip(rule: GenerationCaRule)
    requires CanonicalRule(rule)
    ensures ParseRulestring(GetRulestring(rule)) == Normal(Some(rule))
  {
    GetRulestringPlain(rule);
    GetRulestringParts(rule);
    DigitArrayPartOfPatternString(rule.survivalPattern);
    DigitArrayPartOfPatternString(rule.birthPattern);
    ParseIntOfIntToString(rule.stateCount, []);
    assert IntToString(rule.stateCount, 10) + [] == IntToString(rule.stateCount, 10);
  }
}
