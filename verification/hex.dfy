/**
  Colour formatting of backend/utils.js: `rgbToHex` turns three channel bytes into
  `#rrggbb` by printing each channel with `Number.prototype.toString(16)` and padding
  it on the left with `'0'` to two characters.

  The formatter is paired with `ParseColor`, an independent reader of the same
  format, and the two are shown to be mutually inverse on bytes.
 */
module Hex {
  import opened Maybe

  /** One channel value of an RGBA raster buffer. */
  type byte = x: int | 0 <= x < 256

  /** The digit `toString(16)` prints for a value below 16: `0`-`9`, then lower-case `a`-`f`. */
  function Digit(d: nat): (c: char)
    requires d < 16
  {
    if d < 10 then ('0' as int + d) as char else ('a' as int + d - 10) as char
  }

  predicate IsHexDigit(c: char) {
    ('0' <= c <= '9') || ('a' <= c <= 'f')
  }

  /** The value of one lower-case hexadecimal digit. */
  function DigitValue(c: char): (v: nat)
    requires IsHexDigit(c)
    ensures v < 16 && Digit(v) == c
  {
    if '0' <= c <= '9' then (c - '0') as nat else (c - 'a') as nat + 10
  }

  lemma DigitsAreHexDigits(v: nat)
    requires v < 16
    ensures IsHexDigit(Digit(v)) && DigitValue(Digit(v)) == v
  {
  }

  /** Reads a string of lower-case hexadecimal digits as a number, most significant digit first. */
  function ParseBase16(s: string): nat
    requires forall i :: 0 <= i < |s| ==> IsHexDigit(s[i])
  {
    if |s| == 0 then 0 else ParseBase16(s[..|s| - 1]) * 16 + DigitValue(s[|s| - 1])
  }

  /** `v.toString(16)` for a non-negative integer. */
  function ToBase16(v: nat): (s: string)
    ensures 1 <= |s|
    decreases v
  {
    if v < 16 then [Digit(v)] else ToBase16(v / 16) + [Digit(v % 16)]
  }

  /**
    `toString(16)` prints the shortest lower-case digit string that reads back as `v`:
    one digit exactly below 16, and no leading zero otherwise.
   */
  lemma {:induction false} ToBase16Parse(v: nat)
    ensures forall i :: 0 <= i < |ToBase16(v)| ==> IsHexDigit(ToBase16(v)[i])
    ensures ParseBase16(ToBase16(v)) == v
    ensures |ToBase16(v)| == 1 <==> v < 16
    ensures 1 < |ToBase16(v)| ==> ToBase16(v)[0] != '0'
    decreases v
  {
    var s := ToBase16(v);
    if v < 16 {
      DigitsAreHexDigits(v);
    } else {
      var prefix := ToBase16(v / 16);
      ToBase16Parse(v / 16);
      DigitsAreHexDigits(v % 16);
      assert s == prefix + [Digit(v % 16)];
      assert s[..|s| - 1] == prefix;
      assert s[0] == prefix[0];
    }
  }

  /** `s.padStart(width, fill)` with a one-character fill string. */
  function PadStart(s: string, width: nat, fill: char): string {
    if |s| < width then seq(width - |s|, _ => fill) + s else s
  }

  /** One channel as printed by `v.toString(16).padStart(2, '0')`. */
  function ChannelHex(v: byte): string {
    PadStart(ToBase16(v), 2, '0')
  }

  /** A channel always prints as exactly two digits, high nibble first. */
  lemma ChannelHexDigits(v: byte)
    ensures ChannelHex(v) == [Digit(v / 16), Digit(v % 16)]
  {
    var t := ToBase16(v);
    if v < 16 {
      assert t == [Digit(v)];
    } else {
      assert ToBase16(v / 16) == [Digit(v / 16)];
      assert t == [Digit(v / 16), Digit(v % 16)];
    }
  }

  /** `vs.map(v => v.toString(16).padStart(2, '0')).join('')`. */
  function JoinHex(vs: seq<byte>): string {
    if |vs| == 0 then "" else ChannelHex(vs[0]) + JoinHex(vs[1..])
  }

  /** backend/utils.js `rgbToHex`: `'#'` followed by the three channels, mapped and joined in order. */
  function RgbToHex(r: byte, g: byte, b: byte): string {
    "#" + JoinHex([r, g, b])
  }

  /** Joining the three channels is concatenating their two-digit forms. */
  lemma JoinThree(r: byte, g: byte, b: byte)
    ensures RgbToHex(r, g, b) == "#" + ChannelHex(r) + ChannelHex(g) + ChannelHex(b)
  {
    assert [r, g, b][1..] == [g, b];
    assert [g, b][1..] == [b];
    assert [b][1..] == [];
    assert JoinHex([b]) == ChannelHex(b) + "" == ChannelHex(b);
    assert JoinHex([g, b]) == ChannelHex(g) + ChannelHex(b);
    assert JoinHex([r, g, b]) == ChannelHex(r) + (ChannelHex(g) + ChannelHex(b));
  }

  /** The seven characters of a formatted colour: `#`, then two digits per channel, high nibble first. */
  lemma RgbToHexDigits(r: byte, g: byte, b: byte)
    ensures RgbToHex(r, g, b)
         == "#" + [Digit(r / 16), Digit(r % 16)] + [Digit(g / 16), Digit(g % 16)] + [Digit(b / 16), Digit(b % 16)]
  {
    JoinThree(r, g, b);
    ChannelHexDigits(r);
    ChannelHexDigits(g);
    ChannelHexDigits(b);
  }

  /** A formatted colour is `#` and six lower-case hexadecimal digits. */
  lemma RgbToHexShape(r: byte, g: byte, b: byte)
    ensures IsColorString(RgbToHex(r, g, b))
  {
    RgbToHexDigits(r, g, b);
    var s := RgbToHex(r, g, b);
    assert s[1] == Digit(r / 16) && s[2] == Digit(r % 16);
    assert s[3] == Digit(g / 16) && s[4] == Digit(g % 16);
    assert s[5] == Digit(b / 16) && s[6] == Digit(b % 16);
    DigitsAreHexDigits(r / 16);
    DigitsAreHexDigits(r % 16);
    DigitsAreHexDigits(g / 16);
    DigitsAreHexDigits(g % 16);
    DigitsAreHexDigits(b / 16);
    DigitsAreHexDigits(b % 16);
  }

  /** An RGB triple, as the colour string encodes it. */
  datatype Rgb = Rgb(r: byte, g: byte, b: byte)

  /** Reads two lower-case hexadecimal digits as a byte. */
  function PairValue(hi: char, lo: char): (v: byte)
    requires IsHexDigit(hi) && IsHexDigit(lo)
  {
    DigitValue(hi) * 16 + DigitValue(lo)
  }

  predicate IsColorString(s: string) {
    |s| == 7 && s[0] == '#' && forall i :: 1 <= i < 7 ==> IsHexDigit(s[i])
  }

  /** Reads a `#rrggbb` colour back; anything not of that shape is rejected. */
  function ParseColor(s: string): (c: Option<Rgb>)
    ensures c.Some? <==> IsColorString(s)
  {
    if IsColorString(s) then
      Some(Rgb(PairValue(s[1], s[2]), PairValue(s[3], s[4]), PairValue(s[5], s[6])))
    else
      None
  }

  /** Reading back the two digits of a printed channel gives the channel. */
  lemma PairValueOfByte(v: byte)
    ensures IsHexDigit(Digit(v / 16)) && IsHexDigit(Digit(v % 16))
    ensures PairValue(Digit(v / 16), Digit(v % 16)) == v
  {
    DigitsAreHexDigits(v / 16);
    DigitsAreHexDigits(v % 16);
  }

  /** Parsing a formatted colour gives back the three channels it was made from. */
  lemma ParseRgbToHex(r: byte, g: byte, b: byte)
    ensures ParseColor(RgbToHex(r, g, b)) == Some(Rgb(r, g, b))
  {
    RgbToHexShape(r, g, b);
    RgbToHexDigits(r, g, b);
    PairValueOfByte(r);
    PairValueOfByte(g);
    PairValueOfByte(b);
  }

  /** Two colours print the same exactly when all three channels agree. */
  lemma RgbToHexInjective(r: byte, g: byte, b: byte, r': byte, g': byte, b': byte)
    ensures RgbToHex(r, g, b) == RgbToHex(r', g', b') <==> (r, g, b) == (r', g', b')
  {
    ParseRgbToHex(r, g, b);
    ParseRgbToHex(r', g', b');
  }

  /** Printing the byte a digit pair denotes gives back that pair. */
  lemma ChannelHexOfPair(hi: char, lo: char)
    requires IsHexDigit(hi) && IsHexDigit(lo)
    ensures ChannelHex(PairValue(hi, lo)) == [hi, lo]
  {
    var v := PairValue(hi, lo);
    assert v / 16 == DigitValue(hi) && v % 16 == DigitValue(lo);
    ChannelHexDigits(v);
  }

  /** A colour string is reprinted from the bytes its three digit pairs denote. */
  lemma ReprintPairs(s: string)
    requires IsColorString(s)
    ensures RgbToHex(PairValue(s[1], s[2]), PairValue(s[3], s[4]), PairValue(s[5], s[6])) == s
  {
    JoinThree(PairValue(s[1], s[2]), PairValue(s[3], s[4]), PairValue(s[5], s[6]));
    ChannelHexOfPair(s[1], s[2]);
    ChannelHexOfPair(s[3], s[4]);
    ChannelHexOfPair(s[5], s[6]);
    assert s == "#" + [s[1], s[2]] + [s[3], s[4]] + [s[5], s[6]];
  }

  /**
    Every well-formed lower-case colour string is what `RgbToHex` prints for the value
    parsed from it, so the formatter is onto that format and the format is canonical.
   */
  lemma RgbToHexParse(s: string)
    requires IsColorString(s)
    ensures ParseColor(s).Some?
    ensures var c := ParseColor(s).value; RgbToHex(c.r, c.g, c.b) == s
  {
    ReprintPairs(s);
  }
}
