/** Character classes of Ascii.ts. */
module Ascii {
  import opened Wrappers
  import EcmaScript

  /** The first character of `value` that satisfies `isMatch`, or `None`. */
  function FirstMatch(value: string, isMatch: char -> bool): (r: Option<char>)
    ensures r.None? <==> forall i :: 0 <= i < |value| ==> !isMatch(value[i])
    ensures r.Some? ==> exists i :: 0 <= i < |value| && value[i] == r.value && isMatch(value[i])
                                    && forall j :: 0 <= j < i ==> !isMatch(value[j])
  {
    if value == [] then None
    else if isMatch(value[0]) then Some(value[0])
    else
      var r := FirstMatch(value[1..], isMatch);
      assert forall i :: 1 <= i < |value| ==> value[1..][i - 1] == value[i];
      r
  }

  /** findChar: scans left to right and returns the first match, `None` when nothing matches. */
  method FindChar(value: string, isMatch: char -> bool) returns (r: Option<char>)
    ensures r == FirstMatch(value, isMatch)
  {
    for i := 0 to |value|
      invariant FirstMatch(value, isMatch) == FirstMatch(value[i..], isMatch)
    {
      var c := value[i];
      assert value[i..][1..] == value[i + 1..];
      if isMatch(c) {
        return Some(c);
      }
    }
    assert value[|value|..] == [];
    return None;
  }

  /** Every code unit is at most 0x7f; the empty string qualifies. */
  predicate AllAscii(value: string)
  {
    forall i :: 0 <= i < |value| ==> value[i] as int <= 0x7f
  }

  /** isAscii: stops at the first code unit above 0x7f. */
  method IsAscii(value: string) returns (b: bool)
    ensures b == AllAscii(value)
  {
    for i := 0 to |value|
      invariant forall j :: 0 <= j < i ==> value[j] as int <= 0x7f
    {
      if value[i] as int > 0x7f {
        return false;
      }
    }
    return true;
  }

  /** isDigitChar: exactly the characters parseInt reads as decimal digits. */
  function IsDigitChar(c: char): (b: bool)
    ensures b <==> EcmaScript.IsRadixDigit(c, 10)
  {
    '0' <= c <= '9'
  }

  /** isHexadecimalChar: exactly the characters parseInt reads as base-16 digits. */
  function IsHexadecimalChar(c: char): (b: bool)
    ensures b <==> EcmaScript.IsRadixDigit(c, 16)
  {
    IsDigitChar(c) || ('A' <= c <= 'F') || ('a' <= c <= 'f')
  }

  /** isHexadecimal: no character is outside the hexadecimal digits; true of "". */
  function IsHexadecimal(value: string): (b: bool)
    ensures b <==> forall i :: 0 <= i < |value| ==> IsHexadecimalChar(value[i])
  {
    FirstMatch(value, c => !IsHexadecimalChar(c)).None?
  }

  lemma AllAsciiAppend(a: string, b: string)
    requires AllAscii(a) && AllAscii(b)
    ensures AllAscii(a + b)
  {
    assert forall i :: |a| <= i < |a + b| ==> (a + b)[i] == b[i - |a|];
  }

  /** Decimal digits are ASCII. */
  lemma DecimalDigitsAscii(s: string)
    requires EcmaScript.AllRadixDigits(s, 10)
    ensures AllAscii(s)
    ensures forall i :: 0 <= i < |s| ==> '0' <= s[i] <= '9'
  {
    forall i | 0 <= i < |s|
      ensures '0' <= s[i] <= '9'
    {
      assert EcmaScript.IsRadixDigit(s[i], 10);
    }
  }

  /** `String(n)` is ASCII and ends in a decimal digit. */
  lemma IntToStringAscii(n: int)
    ensures AllAscii(EcmaScript.IntToString(n, 10))
    ensures var s := EcmaScript.IntToString(n, 10); |s| >= 1 && '0' <= s[|s| - 1] <= '9'
    ensures '/' !in EcmaScript.IntToString(n, 10)
  {
    var d := EcmaScript.NatToString(if n < 0 then -n else n, 10);
    DecimalDigitsAscii(d);
    if n < 0 {
      AllAsciiAppend("-", d);
    }
  }

  /** Joining ASCII parts with an ASCII separator gives ASCII text. */
  lemma {:induction false} JoinAscii(parts: seq<string>, sep: char)
    requires sep as int <= 0x7f
    requires forall p :: p in parts ==> AllAscii(p)
    ensures AllAscii(EcmaScript.Join(parts, sep))
  {
    if |parts| >= 2 {
      assert parts[0] in parts;
      forall p | p in parts[1..]
        ensures AllAscii(p)
      {
        assert p in parts;
      }
      JoinAscii(parts[1..], sep);
      AllAsciiAppend(parts[0], [sep]);
      AllAsciiAppend(parts[0] + [sep], EcmaScript.Join(parts[1..], sep));
    } else if |parts| == 1 {
      assert parts[0] in parts;
    }
  }
}
