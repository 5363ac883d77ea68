/**
 * CyclicCaRulestring.ts: a cyclic rule as text, `R<range>/T<threshold>/C<states>/NM`
 * for the Moore neighbourhood and `.../NN` for von Neumann.
 */
module CyclicCaRulestring {
  import opened Wrappers
  import opened EcmaScript
  import opened Ascii
  import opened CyclicCa

  /** getNeighborhoodMarker. */
  function NeighborhoodMarker(neighborhood: Neighborhood): string
  {
    match neighborhood
    case Moore => "NM"
    case VonNeumann => "NN"
  }

  /** getNeighborhoodFromMarker: exactly the two markers are recognised,
      each as the neighbourhood it marks. */
  function NeighborhoodFromMarker(marker: string): (r: Option<Neighborhood>)
    ensures r.Some? <==> marker == "NM" || marker == "NN"
    ensures r.Some? ==> NeighborhoodMarker(r.value) == marker
  {
    if marker == "NM" then Some(Moore)
    else if marker == "NN" then Some(VonNeumann)
    else None
  }

  /** Each neighbourhood's marker is read back as that neighbourhood. */
  lemma NeighborhoodMarkerRoundTrip(neighborhood: Neighborhood)
    ensures NeighborhoodFromMarker(NeighborhoodMarker(neighborhood)) == Some(neighborhood)
  {
  }

  /** getNumericPart(part, marker) for a one-letter marker: parseInt of what
      follows the marker, NaN (`None`) when the marker is missing. */
  function NumericPart(part: string, marker: char): (r: Option<int>)
    ensures r.Some? ==> |part| >= 1 && part[0] == marker
  {
    if |part| >= 1 && part[0] == marker then ParseInt(part[1..], 0) else None
  }

  /** parseInt is lenient: after the marker and a number, any text that does
      not continue the number is ignored, so "R3x" reads as 3. */
  lemma NumericPartLenient(marker: char, n: int, rest: string)
    requires rest == [] || !IsRadixDigit(rest[0], 10)
    requires n == 0 ==> rest == [] || (rest[0] != 'x' && rest[0] != 'X')
    ensures NumericPart([marker] + IntToString(n, 10) + rest, marker) == Some(n)
  {
    var part := [marker] + IntToString(n, 10) + rest;
    assert part[1..] == IntToString(n, 10) + rest;
    ParseIntOfIntToString(n, rest);
  }

  /** The four `/`-separated parts getRulestring writes. */
  function RulestringParts(rule: CyclicCaRule): seq<string>
  {
    ["R" + IntToString(rule.neighborhoodRange, 10),
     "T" + IntToString(rule.advanceThreshold, 10),
     "C" + IntToString(rule.stateCount, 10),
     NeighborhoodMarker(rule.neighborhood)]
  }

  /** getRulestring. */
  function GetRulestring(rule: CyclicCaRule): string
  {
    Join(RulestringParts(rule), '/')
  }

  /** The four fields of a split rulestring, as parseRulestring reads them
      once at least three parts exist; a fifth part and beyond are ignored. */
  function ParseParts(parts: seq<string>): (r: Option<CyclicCaRule>)
    requires |parts| >= 3
    ensures r.Some? ==> r.value.neighborhoodRange != 0 && r.value.advanceThreshold != 0 && r.value.stateCount != 0
    ensures |parts| == 3 ==> r.None?
  {
    var neighborhoodRange := NumericPart(parts[0], 'R');
    var advanceThreshold := NumericPart(parts[1], 'T');
    var stateCount := NumericPart(parts[2], 'C');
    var neighborhood := if |parts| > 3 then NeighborhoodFromMarker(parts[3]) else None;
    if !Truthy(neighborhoodRange) || !Truthy(advanceThreshold) || !Truthy(stateCount) || neighborhood.None? then None
    else Some(CyclicCaRule(advanceThreshold.value, neighborhood.value, neighborhoodRange.value, stateCount.value))
  }

  /**
   * parseRulestring: the trimmed text must be ASCII and split into at least
   * three parts; with fewer, `startsWith` is called on undefined and the
   * source throws. A zero or unreadable field or a wrong or missing marker
   * gives null.
   */
  function ParseRulestring(rulestring: string): (r: Completion<Option<CyclicCaRule>>)
    ensures !AllAscii(Trim(rulestring)) ==> r == Normal(None)
    ensures r.Throw? <==> AllAscii(Trim(rulestring)) && |Split(Trim(rulestring), '/')| < 3
    ensures r.Normal? && r.value.Some? ==>
      AllAscii(Trim(rulestring)) && r.value == ParseParts(Split(Trim(rulestring), '/'))
  {
    var trimmed := Trim(rulestring);
    if !AllAscii(trimmed) then Normal(None)
    else
      var parts := Split(trimmed, '/');
      if |parts| < 3 then Throw("TypeError: Cannot read properties of undefined (reading 'startsWith')")
      else Normal(ParseParts(parts))
  }

  /** Parts after the fourth do not change the parse. */
  lemma ParsePartsIgnoresExtra(parts: seq<string>)
    requires |parts| >= 4
    ensures ParseParts(parts) == ParseParts(parts[..4])
  {
  }

  /** Joining four parts with `/`, written out. */
  lemma JoinFour(parts: seq<string>)
    requires |parts| == 4
    ensures Join(parts, '/') == parts[0] + "/" + (parts[1] + "/" + (parts[2] + "/" + parts[3]))
  {
    assert Join(parts[3..], '/') == parts[3];
    assert Join(parts[2..], '/') == parts[2] + "/" + parts[3];
  }

  /** Each part is ASCII and free of `/`. */
  lemma RulestringPartsPlain(rule: CyclicCaRule)
    ensures forall p :: p in RulestringParts(rule) ==> AllAscii(p) && '/' !in p
  {
    IntToStringAscii(rule.neighborhoodRange);
    IntToStringAscii(rule.advanceThreshold);
    IntToStringAscii(rule.stateCount);
    AllAsciiAppend("R", IntToString(rule.neighborhoodRange, 10));
    AllAsciiAppend("T", IntToString(rule.advanceThreshold, 10));
    AllAsciiAppend("C", IntToString(rule.stateCount, 10));
  }

  /** The rulestring splits back into its four parts, in order. */
  lemma GetRulestringParts(rule: CyclicCaRule)
    ensures Split(GetRulestring(rule), '/') == RulestringParts(rule)
  {
    RulestringPartsPlain(rule);
    SplitJoin(RulestringParts(rule), '/');
  }

  /** The rulestring is ASCII and has no surrounding whitespace. */
  lemma GetRulestringPlain(rule: CyclicCaRule)
    ensures AllAscii(GetRulestring(rule)) && Trim(GetRulestring(rule)) == GetRulestring(rule)
  {
    var parts := RulestringParts(rule);
    var s := GetRulestring(rule);
    RulestringPartsPlain(rule);
    JoinAscii(parts, '/');
    JoinFour(parts);
    var last := parts[3];
    assert s[0] == 'R' && s[|s| - 1] == last[|last| - 1];
    TrimUnpadded(s);
  }

  /** After its marker letter, a part holds `String(n)` and reads as `n`. */
  lemma NumericPartOfString(marker: char, n: int)
    ensures NumericPart([marker] + IntToString(n, 10), marker) == Some(n)
  {
    NumericPartLenient(marker, n, []);
    assert [marker] + IntToString(n, 10) + [] == [marker] + IntToString(n, 10);
  }

  /** The parts of a rule with nonzero fields read back as the rule. */
  lemma ParsePartsOfRule(rule: CyclicCaRule)
    requires rule.neighborhoodRange != 0 && rule.advanceThreshold != 0 && rule.stateCount != 0
    ensures ParseParts(RulestringParts(rule)) == Some(rule)
  {
    NumericPartOfString('R', rule.neighborhoodRange);
    NumericPartOfString('T', rule.advanceThreshold);
    NumericPartOfString('C', rule.stateCount);
    NeighborhoodMarkerRoundTrip(rule.neighborhood);
  }

  /** For a rule with nonzero fields, parsing its rulestring gives the rule back. */
  lemma ParseRulestringRoundTrip(rule: CyclicCaRule)
    requires rule.neighborhoodRange != 0 && rule.advanceThreshold != 0 && rule.stateCount != 0
    ensures ParseRulestring(GetRulestring(rule)) == Normal(Some(rule))
  {
    GetRulestringPlain(rule);
    GetRulestringParts(rule);
    ParsePartsOfRule(rule);
  }

  /** A zero in any numeric field is rejected by the truthiness test. */
  lemma ParseRulestringRejectsZero(rule: CyclicCaRule)
    requires rule.neighborhoodRange == 0 || rule.advanceThreshold == 0 || rule.stateCount == 0
    ensures ParseRulestring(GetRulestring(rule)) == Normal(None)
  {
    GetRulestringPlain(rule);
    GetRulestringParts(rule);
    NumericPartOfString('R', rule.neighborhoodRange);
    NumericPartOfString('T', rule.advanceThreshold);
    NumericPartOfString('C', rule.stateCount);
  }

  /** Whatever parses, its rulestring is canonical: formatting a parsed rule
      and parsing again gives the same rule. */
  lemma ParsedRuleIsCanonical(rulestring: string, rule: CyclicCaRule)
    requires ParseRulestring(rulestring) == Normal(Some(rule))
    ensures ParseRulestring(GetRulestring(rule)) == Normal(Some(rule))
  {
    ParseRulestringRoundTrip(rule);
  }
}
