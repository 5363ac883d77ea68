/**
 * The hexadecimal colour functions of Color.ts: an RGB colour as six
 * hexadecimal digits, two per component, and back.
 */
module Color {
  import opened Wrappers
  import opened Math
  import opened EcmaScript
  import opened Ascii

  datatype Rgb = Rgb(r: int, g: int, b: int)

  /** An Rgb read from text: a component that does not parse is NaN (`None`). */
  datatype ParsedRgb = ParsedRgb(r: Option<int>, g: Option<int>, b: Option<int>)

  /** Each component is a byte, 0 to 255. */
  predicate InByteRange(rgb: Rgb)
  {
    0 <= rgb.r < 256 && 0 <= rgb.g < 256 && 0 <= rgb.b < 256
  }

  /** String.prototype.slice(start, end) for 0 <= start <= end: the bounds are clipped to the length. */
  function Slice(s: string, start: nat, end: nat): string
    requires start <= end
  {
    s[Min(start, |s|)..Min(end, |s|)]
  }

  /** getRgbFromHexTriplet: the slices [0, 2), [2, 4) and [4, 6) read with parseInt(…, 16). */
  function GetRgbFromHexTriplet(hexTriplet: string): ParsedRgb
  {
    ParsedRgb(ParseInt(Slice(hexTriplet, 0, 2), 16),
              ParseInt(Slice(hexTriplet, 2, 4), 16),
              ParseInt(Slice(hexTriplet, 4, 6), 16))
  }

  /** A component of getHexTripletFromRgb: `toString(16)`, with a "0" in front when that is one character. */
  function PadHex(n: int): string
  {
    var s := IntToString(n, 16);
    if |s| == 1 then "0" + s else s
  }

  /** getHexTripletFromRgb. */
  function GetHexTripletFromRgb(rgb: Rgb): string
  {
    PadHex(rgb.r) + PadHex(rgb.g) + PadHex(rgb.b)
  }

  /** getRgbHexString. */
  function GetRgbHexString(rgb: Rgb): string
  {
    "#" + GetHexTripletFromRgb(rgb)
  }

  /** isHexTripletValid: six characters, each a hexadecimal digit of either case. */
  function IsHexTripletValid(hexTriplet: string): (valid: bool)
    ensures valid <==> |hexTriplet| == 6 && forall i :: 0 <= i < 6 ==> IsRadixDigit(hexTriplet[i], 16)
  {
    |hexTriplet| == 6 && IsHexadecimal(hexTriplet)
  }

  /** The digits `toString(16)` writes: 0-9 and lower-case a-f. */
  predicate IsLowerHex(c: char)
  {
    '0' <= c <= '9' || 'a' <= c <= 'f'
  }

  /** A byte is written as two lower-case digits, the high one first. */
  lemma PadHexOfByte(n: int)
    requires 0 <= n < 256
    ensures PadHex(n) == [DigitChar(n / 16), DigitChar(n % 16)]
    ensures IsLowerHex(PadHex(n)[0]) && IsLowerHex(PadHex(n)[1])
  {
    if n >= 16 {
      assert NatToString(n / 16, 16) == [DigitChar(n / 16)];
    }
  }

  /** For bytes, the triplet is six lower-case hexadecimal digits, two per
      component, each zero-padded. */
  lemma HexTripletShape(rgb: Rgb)
    requires InByteRange(rgb)
    ensures var t := GetHexTripletFromRgb(rgb);
      |t| == 6 && (forall i :: 0 <= i < 6 ==> IsLowerHex(t[i]))
      && t[0..2] == PadHex(rgb.r) && t[2..4] == PadHex(rgb.g) && t[4..6] == PadHex(rgb.b)
  {
    PadHexOfByte(rgb.r);
    PadHexOfByte(rgb.g);
    PadHexOfByte(rgb.b);
    var t := GetHexTripletFromRgb(rgb);
    assert t == PadHex(rgb.r) + PadHex(rgb.g) + PadHex(rgb.b);
  }

  /** The `#` string is a `#` and the triplet. */
  lemma RgbHexStringShape(rgb: Rgb)
    requires InByteRange(rgb)
    ensures var s := GetRgbHexString(rgb); |s| == 7 && s[0] == '#' && s[1..] == GetHexTripletFromRgb(rgb)
  {
    HexTripletShape(rgb);
  }

  /** Two hexadecimal digits read back as the byte they were written from. */
  lemma ParseByte(n: int)
    requires 0 <= n < 256
    ensures ParseInt(PadHex(n), 16) == Some(n)
  {
    PadHexOfByte(n);
    DigitCharValue(n / 16);
    DigitCharValue(n % 16);
    ParseIntOfHexPair(PadHex(n));
  }

  /** rgb → hex → rgb is the identity on bytes. */
  lemma RgbRoundTrip(rgb: Rgb)
    requires InByteRange(rgb)
    ensures GetRgbFromHexTriplet(GetHexTripletFromRgb(rgb)) == ParsedRgb(Some(rgb.r), Some(rgb.g), Some(rgb.b))
  {
    HexTripletShape(rgb);
    ParseByte(rgb.r);
    ParseByte(rgb.g);
    ParseByte(rgb.b);
  }

  /** The lower-case form of a hexadecimal digit. */
  function ToLowerHex(c: char): char
  {
    if 'A' <= c <= 'F' then (c as int - 'A' as int + 'a' as int) as char else c
  }

  /** Writing back the value of a hexadecimal digit gives its lower-case form. */
  lemma DigitCharOfValue(c: char)
    requires IsRadixDigit(c, 16)
    ensures DigitChar(DigitValue(c).value) == ToLowerHex(c)
  {
  }

  /** The byte two hexadecimal digits stand for, the first one the sixteens. */
  function HexByte(a: char, b: char): int
    requires IsRadixDigit(a, 16) && IsRadixDigit(b, 16)
  {
    16 * DigitValue(a).value + DigitValue(b).value
  }

  /** The byte of two hexadecimal digits is written back as their lower-case form. */
  lemma HexBytePadHex(a: char, b: char)
    requires IsRadixDigit(a, 16) && IsRadixDigit(b, 16)
    ensures 0 <= HexByte(a, b) < 256
    ensures PadHex(HexByte(a, b)) == [ToLowerHex(a), ToLowerHex(b)]
  {
    var x, y := DigitValue(a).value, DigitValue(b).value;
    DivModUnique(HexByte(a, b), x, y, 16);
    PadHexOfByte(HexByte(a, b));
    DigitCharOfValue(a);
    DigitCharOfValue(b);
  }

  /** The lower-case form of a hexadecimal string. */
  function ToLowerHexString(s: string): (lower: string)
    ensures |lower| == |s|
  {
    seq(|s|, i requires 0 <= i < |s| => ToLowerHex(s[i]))
  }

  /** The two characters at `k` of a valid triplet, as sliced and as lowered. */
  lemma TripletPair(hexTriplet: string, k: nat)
    requires IsHexTripletValid(hexTriplet) && k + 2 <= 6
    ensures IsRadixDigit(hexTriplet[k], 16) && IsRadixDigit(hexTriplet[k + 1], 16)
    ensures Slice(hexTriplet, k, k + 2) == [hexTriplet[k], hexTriplet[k + 1]]
    ensures ToLowerHexString(hexTriplet)[k..k + 2] == [ToLowerHex(hexTriplet[k]), ToLowerHex(hexTriplet[k + 1])]
  {
  }

  /** Two hexadecimal digits read as the byte they stand for. */
  lemma PairParse(s: string)
    requires |s| == 2 && IsRadixDigit(s[0], 16) && IsRadixDigit(s[1], 16)
    ensures ParseInt(s, 16) == Some(HexByte(s[0], s[1]))
  {
    ParseIntOfHexPair(s);
    assert HexByte(s[0], s[1]) == 16 * DigitValue(s[0]).value + DigitValue(s[1]).value;
  }

  /** The byte at `k` of a valid triplet is written back as its two digits in lower case. */
  lemma ComponentWrite(hexTriplet: string, k: nat)
    requires IsHexTripletValid(hexTriplet) && k + 2 <= 6
    ensures IsRadixDigit(hexTriplet[k], 16) && IsRadixDigit(hexTriplet[k + 1], 16)
    ensures 0 <= HexByte(hexTriplet[k], hexTriplet[k + 1]) < 256
    ensures PadHex(HexByte(hexTriplet[k], hexTriplet[k + 1])) == ToLowerHexString(hexTriplet)[k..k + 2]
  {
    TripletPair(hexTriplet, k);
    HexBytePadHex(hexTriplet[k], hexTriplet[k + 1]);
  }

  /** A valid triplet reads as the three bytes of its digit pairs. */
  lemma ParsedTriplet(hexTriplet: string)
    requires IsHexTripletValid(hexTriplet)
    ensures GetRgbFromHexTriplet(hexTriplet) == ParsedRgb(Some(HexByte(hexTriplet[0], hexTriplet[1])),
                                                          Some(HexByte(hexTriplet[2], hexTriplet[3])),
                                                          Some(HexByte(hexTriplet[4], hexTriplet[5])))
  {
    var h := hexTriplet;
    assert Slice(h, 0, 2) == [h[0], h[1]];
    assert Slice(h, 2, 4) == [h[2], h[3]];
    assert Slice(h, 4, 6) == [h[4], h[5]];
    PairParse([h[0], h[1]]);
    PairParse([h[2], h[3]]);
    PairParse([h[4], h[5]]);
  }

  /** The three bytes of a valid triplet's digit pairs are written back as the triplet in lower case. */
  lemma WrittenTriplet(hexTriplet: string)
    requires IsHexTripletValid(hexTriplet)
    ensures var rgb := Rgb(HexByte(hexTriplet[0], hexTriplet[1]),
                           HexByte(hexTriplet[2], hexTriplet[3]),
                           HexByte(hexTriplet[4], hexTriplet[5]));
      InByteRange(rgb) && GetHexTripletFromRgb(rgb) == ToLowerHexString(hexTriplet)
  {
    ComponentWrite(hexTriplet, 0);
    ComponentWrite(hexTriplet, 2);
    ComponentWrite(hexTriplet, 4);
    SixInPairs(ToLowerHexString(hexTriplet));
  }

  /** A six-character string is its three pairs. */
  lemma SixInPairs(s: string)
    requires |s| == 6
    ensures s == s[0..2] + s[2..4] + s[4..6]
  {
  }

  /** hex → rgb → hex gives back a valid triplet, in lower case. */
  lemma ValidTripletRoundTrip(hexTriplet: string)
    requires IsHexTripletValid(hexTriplet)
    ensures var p := GetRgbFromHexTriplet(hexTriplet);
      p.r.Some? && p.g.Some? && p.b.Some?
      && InByteRange(Rgb(p.r.value, p.g.value, p.b.value))
      && GetHexTripletFromRgb(Rgb(p.r.value, p.g.value, p.b.value)) == ToLowerHexString(hexTriplet)
  {
    ParsedTriplet(hexTriplet);
    WrittenTriplet(hexTriplet);
  }
}
