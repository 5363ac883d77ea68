/**
 * The ECMAScript built-ins the simulation core leans on, on integers and
 * strings: String.prototype.trim, split and join on a one-character
 * separator, indexOf, Number.prototype.toString(radix) and parseInt.
 */
module EcmaScript {
  import opened Wrappers

  /** WhiteSpace and LineTerminator code points (ECMA-262, sections 12.2 and
      12.3): what String.prototype.trim removes and what parseInt skips. */
  predicate IsWhitespace(c: char)
  {
    c == '\t' || c == '\n' || c == '\U{000B}' || c == '\U{000C}' || c == '\r' || c == ' '
    || c == '\U{00A0}' || c == '\U{1680}' || ('\U{2000}' <= c <= '\U{200A}')
    || c == '\U{2028}' || c == '\U{2029}' || c == '\U{202F}' || c == '\U{205F}'
    || c == '\U{3000}' || c == '\U{FEFF}'
  }

  predicate AllWhitespace(s: string)
  {
    forall i :: 0 <= i < |s| ==> IsWhitespace(s[i])
  }

  /** Neither end of `s` is whitespace (trim leaves `s` as it is). */
  predicate Unpadded(s: string)
  {
    s == [] || (!IsWhitespace(s[0]) && !IsWhitespace(s[|s| - 1]))
  }

  function TrimStart(s: string): (r: string)
    ensures |r| <= |s| && r == s[|s| - |r|..]
    ensures r == [] || !IsWhitespace(r[0])
  {
    if |s| > 0 && IsWhitespace(s[0]) then TrimStart(s[1..]) else s
  }

  /** trimStart removes whitespace only. */
  lemma {:induction false} TrimStartRemovesWhitespace(s: string)
    ensures AllWhitespace(s[..|s| - |TrimStart(s)|])
  {
    if |s| > 0 && IsWhitespace(s[0]) {
      var t := s[1..];
      var r := TrimStart(t);
      assert TrimStart(s) == r;
      TrimStartRemovesWhitespace(t);
      var p := s[..|s| - |r|];
      forall i | 0 <= i < |p|
        ensures IsWhitespace(p[i])
      {
        if i > 0 {
          assert p[i] == t[..|t| - |r|][i - 1];
        }
      }
    }
  }

  function TrimEnd(s: string): (r: string)
    ensures |r| <= |s| && r == s[..|r|]
    ensures r == [] || !IsWhitespace(r[|r| - 1])
  {
    if |s| > 0 && IsWhitespace(s[|s| - 1]) then TrimEnd(s[..|s| - 1]) else s
  }

  /** trimEnd removes whitespace only. */
  lemma {:induction false} TrimEndRemovesWhitespace(s: string)
    ensures AllWhitespace(s[|TrimEnd(s)|..])
  {
    if |s| > 0 && IsWhitespace(s[|s| - 1]) {
      var r := TrimEnd(s[..|s| - 1]);
      TrimEndRemovesWhitespace(s[..|s| - 1]);
      assert s[|r|..] == s[..|s| - 1][|r|..] + [s[|s| - 1]];
    }
  }

  /** String.prototype.trim */
  function Trim(s: string): (r: string)
    ensures Unpadded(r)
  {
    TrimEnd(TrimStart(s))
  }

  lemma {:induction false} TrimStartPadded(w: string, s: string)
    requires AllWhitespace(w)
    requires s == [] || !IsWhitespace(s[0])
    ensures TrimStart(w + s) == s
  {
    if w != [] {
      assert (w + s)[1..] == w[1..] + s;
      TrimStartPadded(w[1..], s);
    }
  }

  lemma {:induction false} TrimEndPadded(s: string, w: string)
    requires AllWhitespace(w)
    requires s == [] || !IsWhitespace(s[|s| - 1])
    ensures TrimEnd(s + w) == s
  {
    if w != [] {
      assert (s + w)[..|s + w| - 1] == s + w[..|w| - 1];
      TrimEndPadded(s, w[..|w| - 1]);
    } else {
      assert s + w == s;
    }
  }

  /** Trimming removes exactly the whitespace around an unpadded text. */
  lemma TrimPadded(w1: string, s: string, w2: string)
    requires AllWhitespace(w1) && AllWhitespace(w2) && Unpadded(s)
    ensures Trim(w1 + s + w2) == s
  {
    if s == [] {
      assert w1 + s + w2 == w1 + w2;
      TrimStartPadded(w1 + w2, []);
      assert w1 + w2 + [] == w1 + w2;
    } else {
      assert w1 + s + w2 == w1 + (s + w2);
      TrimStartPadded(w1, s + w2);
      TrimEndPadded(s, w2);
    }
  }

  lemma TrimUnpadded(s: string)
    requires Unpadded(s)
    ensures Trim(s) == s
  {
    TrimPadded([], s, []);
    assert [] + s + [] == s;
  }

  /** A separator that is not whitespace between two texts, the first not
      starting and the second not ending with whitespace, gives an unpadded text. */
  lemma UnpaddedAround(a: string, sep: char, b: string)
    requires !IsWhitespace(sep)
    requires a == [] || !IsWhitespace(a[0])
    requires b == [] || !IsWhitespace(b[|b| - 1])
    ensures Unpadded(a + [sep] + b)
  {
    var s := a + [sep] + b;
    assert s[0] == if a == [] then sep else a[0];
    assert s[|s| - 1] == if b == [] then sep else b[|b| - 1];
  }

  /** String.prototype.split with a one-character separator. */
  function Split(s: string, sep: char): (parts: seq<string>)
    ensures |parts| >= 1
    ensures forall p :: p in parts ==> sep !in p
  {
    if s == [] then [[]]
    else
      var rest := Split(s[1..], sep);
      if s[0] == sep then [[]] + rest else [[s[0]] + rest[0]] + rest[1..]
  }

  /** Array.prototype.join with a one-character separator. */
  function Join(parts: seq<string>, sep: char): string
  {
    if |parts| == 0 then []
    else if |parts| == 1 then parts[0]
    else parts[0] + [sep] + Join(parts[1..], sep)
  }

  /** Splitting gives more than one part exactly when the separator occurs. */
  lemma {:induction false} SplitCount(s: string, sep: char)
    ensures |Split(s, sep)| >= 2 <==> sep in s
  {
    if s != [] {
      SplitCount(s[1..], sep);
      assert sep in s <==> s[0] == sep || sep in s[1..];
    }
  }

  lemma {:induction false} SplitCons(a: string, b: string, sep: char)
    requires sep !in a
    ensures Split(a + b, sep) == [a + Split(b, sep)[0]] + Split(b, sep)[1..]
  {
    if a != [] {
      assert (a + b)[1..] == a[1..] + b;
      SplitCons(a[1..], b, sep);
      assert [a[0]] + (a[1..] + Split(b, sep)[0]) == a + Split(b, sep)[0];
    } else {
      assert a + b == b;
      assert a + Split(b, sep)[0] == Split(b, sep)[0];
      assert Split(b, sep) == [Split(b, sep)[0]] + Split(b, sep)[1..];
    }
  }

  /** Splitting a joined list of separator-free parts gives the parts back. */
  lemma {:induction false} SplitJoin(parts: seq<string>, sep: char)
    requires |parts| >= 1
    requires forall p :: p in parts ==> sep !in p
    ensures Split(Join(parts, sep), sep) == parts
  {
    if |parts| == 1 {
      SplitCons(parts[0], [], sep);
      assert parts[0] + [] == parts[0];
      assert Split([], sep) == [[]];
      assert [parts[0] + []] + Split([], sep)[1..] == [parts[0]];
    } else {
      forall p | p in parts[1..] ensures sep !in p {
        assert p in parts;
      }
      SplitJoin(parts[1..], sep);
      var j := Join(parts[1..], sep);
      assert Join(parts, sep) == parts[0] + ([sep] + j);
      assert ([sep] + j)[0] == sep;
      assert ([sep] + j)[1..] == j;
      assert Split([sep] + j, sep) == [[]] + parts[1..];
      SplitCons(parts[0], [sep] + j, sep);
      assert parts[0] + [] == parts[0];
      assert parts == [parts[0]] + parts[1..];
    }
  }

  // ---- numbers and their text ----

  /** The digit Number.prototype.toString writes for `d` (lower case). */
  function DigitChar(d: nat): (c: char)
    requires d < 36
  {
    if d < 10 then ('0' as int + d) as char else ('a' as int + d - 10) as char
  }

  /** The value parseInt gives a digit character, in any radix up to 36. */
  function DigitValue(c: char): (r: Option<nat>)
    ensures r.Some? ==> r.value < 36
  {
    if '0' <= c <= '9' then Some(c as int - '0' as int)
    else if 'a' <= c <= 'z' then Some(c as int - 'a' as int + 10)
    else if 'A' <= c <= 'Z' then Some(c as int - 'A' as int + 10)
    else None
  }

  predicate IsRadixDigit(c: char, radix: nat)
  {
    DigitValue(c).Some? && DigitValue(c).value < radix
  }

  predicate AllRadixDigits(s: string, radix: nat)
  {
    forall i :: 0 <= i < |s| ==> IsRadixDigit(s[i], radix)
  }

  lemma DigitCharValue(d: nat)
    requires d < 36
    ensures DigitValue(DigitChar(d)) == Some(d)
  {
  }

  lemma DivMod(n: nat, radix: nat)
    requires 2 <= radix
    ensures n == (n / radix) * radix + n % radix
    ensures 0 <= n % radix < radix
    ensures n >= radix ==> 1 <= n / radix < n
    ensures n < radix ==> n / radix == 0
  {
  }

  /** Number.prototype.toString(radix) of a non-negative integer. */
  function NatToString(n: nat, radix: nat): (s: string)
    requires 2 <= radix <= 36
    ensures |s| >= 1 && AllRadixDigits(s, radix)
    ensures n > 0 ==> s[0] != '0'
    ensures n < radix <==> |s| == 1
    decreases n
  {
    if n < radix then [DigitChar(n)]
    else
      DivMod(n, radix);
      NatToString(n / radix, radix) + [DigitChar(n % radix)]
  }

  /** Number.prototype.toString(radix) (and String(n) for radix 10) of an integer. */
  function IntToString(n: int, radix: nat): (s: string)
    requires 2 <= radix <= 36
  {
    if n < 0 then "-" + NatToString(-n, radix) else NatToString(n, radix)
  }

  /** The decimal text of an integer has no surrounding whitespace: it starts
      with a digit or "-" and ends with a digit. */
  lemma IntToStringUnpadded(n: int)
    ensures Unpadded(IntToString(n, 10))
  {
    var d := NatToString(if n < 0 then -n else n, 10);
    var s := IntToString(n, 10);
    assert IsRadixDigit(d[|d| - 1], 10);
    assert s[|s| - 1] == d[|d| - 1];
  }

  /** The longest prefix of `s` made of digits of `radix`. */
  function LeadingDigits(s: string, radix: nat): (d: string)
    ensures |d| <= |s| && d == s[..|d|] && AllRadixDigits(d, radix)
    ensures |d| < |s| ==> !IsRadixDigit(s[|d|], radix)
  {
    if |s| > 0 && IsRadixDigit(s[0], radix) then [s[0]] + LeadingDigits(s[1..], radix) else []
  }

  /** The value of a digit string, most significant digit first. */
  function DigitsValue(s: string, radix: nat): (v: nat)
    requires AllRadixDigits(s, radix)
  {
    if s == [] then 0
    else DigitsValue(s[..|s| - 1], radix) * radix + DigitValue(s[|s| - 1]).value
  }

  /** The longest run of `base` digits at the start of `u`, read as a number; NaN when there is none. */
  function ParseDigits(u: string, base: nat): (r: Option<nat>)
    requires 2 <= base <= 36
  {
    var digits := LeadingDigits(u, base);
    if digits == [] then None else Some(DigitsValue(digits, base))
  }

  /** The unsigned part of parseInt: "0x"/"0X" switches to base 16 when the radix is omitted (0) or 16. */
  function ParseMagnitude(u: string, radix: nat): (r: Option<nat>)
    requires radix == 0 || 2 <= radix <= 36
  {
    if (radix == 0 || radix == 16) && |u| >= 2 && u[0] == '0' && (u[1] == 'x' || u[1] == 'X') then
      ParseDigits(u[2..], 16)
    else
      ParseDigits(u, if radix == 0 then 10 else radix)
  }

  /**
   * parseInt(s, radix); radix 0 stands for an omitted radix. Leading
   * whitespace is skipped, one sign is read, then the magnitude; no digit at
   * all gives NaN (`None`). What follows the digits is ignored.
   */
  function ParseInt(s: string, radix: nat): (r: Option<int>)
    requires radix == 0 || 2 <= radix <= 36
  {
    ParseSigned(TrimStart(s), radix)
  }

  /** parseInt after the leading whitespace: an optional sign, then the magnitude. */
  function ParseSigned(t: string, radix: nat): (r: Option<int>)
    requires radix == 0 || 2 <= radix <= 36
  {
    if |t| > 0 && t[0] == '-' then Negated(ParseMagnitude(t[1..], radix))
    else if |t| > 0 && t[0] == '+' then Widened(ParseMagnitude(t[1..], radix))
    else Widened(ParseMagnitude(t, radix))
  }

  function Negated(m: Option<nat>): Option<int>
  {
    match m
    case None => None
    case Some(v) => Some(-(v as int))
  }

  function Widened(m: Option<nat>): Option<int>
  {
    match m
    case None => None
    case Some(v) => Some(v as int)
  }

  lemma {:induction false} LeadingDigitsOfDigits(d: string, rest: string, radix: nat)
    requires AllRadixDigits(d, radix)
    requires rest == [] || !IsRadixDigit(rest[0], radix)
    ensures LeadingDigits(d + rest, radix) == d
  {
    if d != [] {
      assert (d + rest)[0] == d[0];
      assert (d + rest)[1..] == d[1..] + rest;
      LeadingDigitsOfDigits(d[1..], rest, radix);
      assert [d[0]] + d[1..] == d;
    } else {
      assert d + rest == rest;
    }
  }

  lemma {:induction false} DigitsValueOfNatToString(n: nat, radix: nat)
    requires 2 <= radix <= 36
    ensures DigitsValue(NatToString(n, radix), radix) == n
    decreases n
  {
    var s := NatToString(n, radix);
    if n < radix {
      DigitCharValue(n);
    } else {
      DivMod(n, radix);
      DigitsValueOfNatToString(n / radix, radix);
      assert s[..|s| - 1] == NatToString(n / radix, radix);
      DigitCharValue(n % radix);
    }
  }

  lemma ParseDigitsOfDigits(d: string, rest: string, base: nat)
    requires 2 <= base <= 36
    requires d != [] && AllRadixDigits(d, base)
    requires rest == [] || !IsRadixDigit(rest[0], base)
    ensures ParseDigits(d + rest, base) == Some(DigitsValue(d, base))
  {
    LeadingDigitsOfDigits(d, rest, base);
  }

  /**
   * parseInt reads back what toString wrote, and stops at the first
   * character that is not a decimal digit ("3x" reads as 3). A "0" followed
   * by "x" would switch to base 16, so that one case is excluded.
   */
  lemma ParseIntOfIntToString(n: int, rest: string)
    requires rest == [] || !IsRadixDigit(rest[0], 10)
    requires n == 0 ==> rest == [] || (rest[0] != 'x' && rest[0] != 'X')
    ensures ParseInt(IntToString(n, 10) + rest, 0) == Some(n)
  {
    var m: nat := if n < 0 then -n else n;
    var u := NatToString(m, 10) + rest;
    IntToStringShape(n, rest);
    ParseMagnitudeOfNatToString(m, rest);
    ParseIntOfMagnitude(IntToString(n, 10) + rest, u, n < 0);
  }

  /** toString(10) followed by `rest` is the digits and `rest`, with a "-" in front for a negative number. */
  lemma IntToStringShape(n: int, rest: string)
    ensures var u := NatToString(if n < 0 then -n else n, 10) + rest;
      u != [] && IsRadixDigit(u[0], 10)
      && IntToString(n, 10) + rest == if n < 0 then "-" + u else u
  {
    var d := NatToString(if n < 0 then -n else n, 10);
    assert (d + rest)[0] == d[0];
  }

  /** A string that starts with a decimal digit, with or without a "-" in front, reads as its signed magnitude. */
  lemma ParseIntOfMagnitude(s: string, u: string, negative: bool)
    requires u != [] && IsRadixDigit(u[0], 10)
    requires s == if negative then "-" + u else u
    ensures ParseInt(s, 0) == if negative then Negated(ParseMagnitude(u, 0)) else Widened(ParseMagnitude(u, 0))
  {
    TrimStartUnpadded(s);
    if negative {
      assert s[1..] == u;
    }
  }

  lemma TrimStartUnpadded(s: string)
    requires s != [] && !IsWhitespace(s[0])
    ensures TrimStart(s) == s
  {
  }

  lemma ParseMagnitudeOfNatToString(m: nat, rest: string)
    requires rest == [] || !IsRadixDigit(rest[0], 10)
    requires m == 0 ==> rest == [] || (rest[0] != 'x' && rest[0] != 'X')
    ensures ParseMagnitude(NatToString(m, 10) + rest, 0) == Some(m)
  {
    var d := NatToString(m, 10);
    var u := d + rest;
    assert u[0] == d[0];
    assert !(|u| >= 2 && u[0] == '0' && (u[1] == 'x' || u[1] == 'X')) by {
      if |u| >= 2 && u[0] == '0' {
        assert m == 0;
        assert |d| == 1;
        assert u[1] == rest[0];
      }
    }
    ParseDigitsOfDigits(d, rest, 10);
    DigitsValueOfNatToString(m, 10);
  }

  /** parseInt of a one-character string: the digit's value, else NaN. */
  lemma ParseIntOfChar(c: char)
    ensures ParseInt([c], 0) == if '0' <= c <= '9' then Some(c as int - '0' as int) else None
  {
    var s := [c];
    if IsWhitespace(c) {
      assert s[1..] == [];
      assert TrimStart(s) == [];
    } else {
      assert TrimStart(s) == s;
      if c == '-' || c == '+' {
        assert s[1..] == [];
        assert ParseMagnitude([], 0) == None;
      } else if '0' <= c <= '9' {
        ParseDigitsOfDigits(s, [], 10);
        assert s + [] == s;
        assert s[..0] == [];
        assert DigitsValue(s, 10) == c as int - '0' as int;
      } else {
        assert LeadingDigits(s, 10) == [];
      }
    }
  }

  /** parseInt(s, 16) of two hexadecimal digits. */
  lemma ParseIntOfHexPair(s: string)
    requires |s| == 2 && IsRadixDigit(s[0], 16) && IsRadixDigit(s[1], 16)
    ensures ParseInt(s, 16) == Some(16 * DigitValue(s[0]).value + DigitValue(s[1]).value)
  {
    HexPairUnsigned(s);
    HexPairDigits(s);
  }

  /** Two hexadecimal digits carry no whitespace, sign or "0x" prefix. */
  lemma HexPairUnsigned(s: string)
    requires |s| == 2 && IsRadixDigit(s[0], 16) && IsRadixDigit(s[1], 16)
    ensures ParseInt(s, 16) == Widened(ParseDigits(s, 16))
  {
    TrimStartUnpadded(s);
    assert s[1] != 'x' && s[1] != 'X';
  }

  /** Two hexadecimal digits read as a number, the first one the sixteens. */
  lemma HexPairDigits(s: string)
    requires |s| == 2 && IsRadixDigit(s[0], 16) && IsRadixDigit(s[1], 16)
    ensures ParseDigits(s, 16) == Some(16 * DigitValue(s[0]).value + DigitValue(s[1]).value)
  {
    ParseDigitsOfDigits(s, [], 16);
    assert s + [] == s;
    assert s[..1] == [s[0]];
    assert [s[0]][..0] == [];
    assert DigitsValue([s[0]], 16) == DigitValue(s[0]).value;
  }
}
