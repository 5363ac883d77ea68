/** CaFamily.ts: the three families of automata and their names. */
module CaFamily {
  import opened Wrappers
  import opened EcmaScript

  datatype CaFamily = Cyclic | Generation | Lifelike

  /** The string value of each enum member. */
  function FamilyName(family: CaFamily): string
  {
    match family
    case Cyclic => "Cyclic"
    case Generation => "Generation"
    case Lifelike => "Lifelike"
  }

  /**
   * parseFamily: null and the empty string give null; otherwise the trimmed
   * value must be one of the three names exactly, case included.
   */
  function ParseFamily(value: Option<string>): (r: Option<CaFamily>)
    ensures r.Some? <==> value.Some? && Trim(value.value) in {"Cyclic", "Generation", "Lifelike"}
    ensures r.Some? ==> FamilyName(r.value) == Trim(value.value)
  {
    if value.None? || value.value == "" then None
    else
      var trimmed := Trim(value.value);
      if trimmed == "Cyclic" then Some(Cyclic)
      else if trimmed == "Generation" then Some(Generation)
      else if trimmed == "Lifelike" then Some(Lifelike)
      else
        None
  }

  /** Each family's name, with any whitespace around it, parses to that family. */
  lemma ParseFamilyName(family: CaFamily, before: string, after: string)
    requires AllWhitespace(before) && AllWhitespace(after)
    ensures ParseFamily(Some(before + FamilyName(family) + after)) == Some(family)
  {
    var name := FamilyName(family);
    NameUnpadded(family);
    TrimPadded(before, name, after);
    assert |before + name + after| >= |name| > 0;
    ParseTrimmedName(family, before + name + after);
  }

  /** No family name starts or ends with whitespace. */
  lemma NameUnpadded(family: CaFamily)
    ensures FamilyName(family) != [] && Unpadded(FamilyName(family))
  {
    var name := FamilyName(family);
    match family
    case Cyclic => assert name[0] == 'C' && name[5] == 'c';
    case Generation => assert name[0] == 'G' && name[9] == 'n';
    case Lifelike => assert name[0] == 'L' && name[7] == 'e';
  }

  /** A non-empty value whose trimmed form is a family's name parses to that family. */
  lemma ParseTrimmedName(family: CaFamily, s: string)
    requires s != [] && Trim(s) == FamilyName(family)
    ensures ParseFamily(Some(s)) == Some(family)
  {
    match family
    case Cyclic =>
    case Generation => assert |Trim(s)| == 10;
    case Lifelike => assert |Trim(s)| == 8 && Trim(s)[0] == 'L';
  }
}
