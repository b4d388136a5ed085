/**
 * The colour-math module of the palette generator: random hex colours,
 * hex <-> HSL conversion, palettes related to a base colour by a colour-wheel
 * style, and the descriptions of those styles.
 *
 * Numbers are exact: the HSL formulas run on `real`, hex values on `int`.
 * Math.random() is not called; its draw u, a number in [0, 1), is a parameter.
 */
module ColorPalette {
  import opened JsRuntime

  // ---------------------------------------------------------------------
  // Colours as strings
  // ---------------------------------------------------------------------

  /** A well-formed output colour: '#' and six upper-case hexadecimal digits. */
  predicate IsHexColor(s: string) {
    |s| == 7 && s[0] == '#' && AllUpperHexDigits(s[1..])
  }

  /** The three bytes a six-digit string spells two digits at a time. */
  function DigitPairs(d: string): (int, int, int)
    requires |d| == 6 && AllHexDigits(d)
  {
    (ParseHex(d[0..2]), ParseHex(d[2..4]), ParseHex(d[4..6]))
  }

  // ---------------------------------------------------------------------
  // randomHexColor / generatePalette
  // ---------------------------------------------------------------------

  /** The integer Math.floor(u * 0xffffff) drawn from a Math.random() value u. */
  function Drawn(u: real): (n: int)
    requires 0.0 <= u < 1.0
    ensures 0 <= n <= 0xFF_FFFE
    ensures n as real <= u * 16777215.0 < n as real + 1.0
  {
    (u * 16777215.0).Floor
  }

  /**
   * randomHexColor, with u the value Math.random() returned: the drawn
   * integer as six zero-padded hex digits, upper-cased, after a '#'.
   */
  function RandomHexColor(u: real): (color: string)
    requires 0.0 <= u < 1.0
    ensures IsHexColor(color)
    ensures AllHexDigits(color[1..]) && ParseHex(color[1..]) == Drawn(u)
  {
    var n := Drawn(u);
    PaddedHex(n, 6);
    var digits := ToUpper(PadStart(ToHexString(n), 6, '0'));
    var color := "#" + digits;
    assert color[1..] == digits;
    color
  }

  /** Every integer of [0, 0xFFFFFE] is drawn by some value of Math.random(). */
  lemma RandomHexColorCovers(n: int)
    requires 0 <= n <= 0xFF_FFFE
    ensures var u := n as real / 16777215.0;
      0.0 <= u < 1.0 && ParseHex(RandomHexColor(u)[1..]) == n
  {
    var u := n as real / 16777215.0;
    assert u * 16777215.0 == n as real;
  }

  /** Math.floor(Math.random() * 0xffffff) stays below 0xFFFFFF: white is never drawn. */
  lemma RandomHexColorNeverWhite(u: real)
    requires 0.0 <= u < 1.0
    ensures RandomHexColor(u) != "#FFFFFF"
  {
    var color := RandomHexColor(u);
    if color == "#FFFFFF" {
      assert color[1..] == "FFFFFF";
      WhiteValue();
    }
  }

  /** "FFFFFF" reads as 0xFFFFFF. */
  lemma WhiteValue()
    ensures AllHexDigits("FFFFFF") && ParseHex("FFFFFF") == 0xFF_FFFF
  {
    var ff := "FFFFFF";
    assert ff[0] == 'F' && ff[1] == 'F' && ff[2] == 'F' && ff[3] == 'F' && ff[4] == 'F' && ff[5] == 'F';
    AllFs(ff);
    assert Pow16(6) == 0x100_0000;
  }

  /** A run of 'F' digits is the largest value of its width. */
  lemma {:induction false} AllFs(s: string)
    requires forall i :: 0 <= i < |s| ==> s[i] == 'F'
    ensures AllHexDigits(s) && ParseHex(s) == Pow16(|s|) - 1
    decreases |s|
  {
    if s != [] {
      AllFs(s[..|s| - 1]);
    }
  }

  /**
   * The length Array.from gives an array-like object of the given length:
   * the count itself, or no elements at all for a negative count.
   */
  function ArrayLength(count: int): (n: nat)
    ensures 0 <= count ==> n == count
    ensures count < 0 ==> n == 0
  {
    if count < 0 then 0 else count
  }

  /**
   * generatePalette(count): one random colour per element; draws[i] is the
   * value Math.random() returned for element i.
   */
  function GeneratePalette(count: int, draws: seq<real>): (palette: seq<string>)
    requires |draws| == ArrayLength(count)
    requires forall i :: 0 <= i < |draws| ==> 0.0 <= draws[i] < 1.0
    ensures |palette| == ArrayLength(count)
    ensures forall i :: 0 <= i < |palette| ==>
      IsHexColor(palette[i]) && palette[i] == RandomHexColor(draws[i])
  {
    seq(|draws|, i requires 0 <= i < |draws| => RandomHexColor(draws[i]))
  }

  // ---------------------------------------------------------------------
  // hexToHSL
  // ---------------------------------------------------------------------

  /** A colour in hue (degrees), saturation and lightness (both percent). */
  datatype HSL = HSL(h: int, s: int, l: int)

  /**
   * What hexToHSL can parse: after the first '#' is removed, one to six
   * hexadecimal digits (this covers both the six-digit form and the
   * three-digit shorthand).
   */
  predicate IsValidHexInput(hex: string) {
    var c := RemoveFirst(hex, '#');
    1 <= |c| <= 6 && AllHexDigits(c)
  }

  /** The regular expression /^#?[0-9a-fA-F]{6}$/ a base colour is checked against. */
  function CliAccepts(input: string): (ok: bool)
    ensures ok ==> 6 <= |input| && IsValidHexInput(input) && RemoveFirst(input, '#') == input[|input| - 6..]
  {
    var ok := || (|input| == 6 && AllHexDigits(input))
              || (|input| == 7 && input[0] == '#' && AllHexDigits(input[1..]));
    assert ok && |input| == 6 ==> '#' !in input by {
      if ok && |input| == 6 {
        assert forall i :: 0 <= i < |input| ==> input[i] != '#';
      }
    }
    ok
  }

  /** The digits hexToHSL parses: the first '#' removed, 3-digit shorthand doubled. */
  function ExpandedDigits(hex: string): (c: string)
    requires IsValidHexInput(hex)
    ensures 1 <= |c| <= 6 && AllHexDigits(c)
    ensures ParseHex(c) < 0x100_0000
  {
    var c := RemoveFirst(hex, '#');
    var e := if |c| == 3 then [c[0], c[0], c[1], c[1], c[2], c[2]] else c;
    DigitsBelow(e);
    e
  }

  /** A string of at most six digits reads as a value below 16^6. */
  lemma DigitsBelow(e: string)
    requires |e| <= 6 && AllHexDigits(e)
    ensures ParseHex(e) < 0x100_0000
  {
    var k := |e|;
    assert Pow16(k) <= Pow16(6) by {
      if k < 6 {
        assert Pow16(k) <= Pow16(5) by {
          if k < 5 {
            assert Pow16(k) <= Pow16(4) by {
              if k < 4 {
                assert Pow16(k) <= Pow16(3) by {
                  if k < 3 {
                    assert Pow16(k) <= Pow16(2);
                  }
                }
              }
            }
          }
        }
      }
    }
  }

  /**
   * The channels hexToHSL extracts with `(num >> 16) & 255`, `(num >> 8) & 255`
   * and `num & 255`: three bytes that put back together give num.
   */
  function HexToRgb(hex: string): (rgb: (int, int, int))
    requires IsValidHexInput(hex)
    ensures 0 <= rgb.0 < 256 && 0 <= rgb.1 < 256 && 0 <= rgb.2 < 256
    ensures ParseHex(ExpandedDigits(hex)) == 65536 * rgb.0 + 256 * rgb.1 + rgb.2
  {
    var num := ParseHex(ExpandedDigits(hex));
    ShiftsOfBytes(num);
    (And255(ShiftRight(num, 16)), And255(ShiftRight(num, 8)), And255(num))
  }

  /** Shifting a 24-bit value by 16 and 8 and masking each to a byte splits it into its bytes. */
  lemma ShiftsOfBytes(num: int)
    requires 0 <= num < 0x100_0000
    ensures ShiftRight(num, 16) == num / 65536 && ShiftRight(num, 8) == num / 256
    ensures 65536 * And255(ShiftRight(num, 16)) + 256 * And255(ShiftRight(num, 8)) + And255(num) == num
  {
    assert Pow2(8) == 256 by {
      assert Pow2(4) == 16;
    }
    assert Pow2(16) == 65536 by {
      assert Pow2(4) == 16;
      assert Pow2(8) == 256;
      assert Pow2(12) == 4096;
    }
    var hi, rest := num / 65536, num % 65536;
    assert num == 65536 * hi + rest && 0 <= rest < 65536 && hi < 256;
    var mid, lo := rest / 256, rest % 256;
    assert rest == 256 * mid + lo && mid < 256;
    assert num / 256 == 256 * hi + mid;
    assert ShiftRight(num, 16) == hi && And255(hi) == hi;
    assert ShiftRight(num, 8) == 256 * hi + mid && And255(256 * hi + mid) == mid;
    assert And255(num) == lo;
  }

  /** Byte bounds pin down the three bytes of a 24-bit value. */
  lemma BytesUnique(r: int, g: int, b: int, r': int, g': int, b': int)
    requires 0 <= r < 256 && 0 <= g < 256 && 0 <= b < 256
    requires 0 <= r' < 256 && 0 <= g' < 256 && 0 <= b' < 256
    requires 65536 * r + 256 * g + b == 65536 * r' + 256 * g' + b'
    ensures r == r' && g == g' && b == b'
  {
  }

  /** Six digits, with or without '#': red, green and blue are the digit pairs in order. */
  lemma HexChannels(hex: string)
    requires IsValidHexInput(hex) && |RemoveFirst(hex, '#')| == 6
    ensures HexToRgb(hex) == DigitPairs(RemoveFirst(hex, '#'))
  {
    var d := RemoveFirst(hex, '#');
    assert ExpandedDigits(hex) == d;
    SixDigits(d);
    var rgb := HexToRgb(hex);
    BytesUnique(rgb.0, rgb.1, rgb.2, ParseHex(d[0..2]), ParseHex(d[2..4]), ParseHex(d[4..6]));
  }

  /** Six digits read as the three digit pairs, the first one the most significant. */
  lemma SixDigits(d: string)
    requires |d| == 6 && AllHexDigits(d)
    ensures ParseHex(d) == 65536 * ParseHex(d[0..2]) + 256 * ParseHex(d[2..4]) + ParseHex(d[4..6])
  {
    ParseHexAppend(d[0..2], d[2..6]);
    ParseHexAppend(d[2..4], d[4..6]);
    assert d[0..2] + d[2..6] == d;
    assert d[2..4] + d[4..6] == d[2..6];
    assert Pow16(2) == 256 && Pow16(4) == 65536;
    var hi, lo := ParseHex(d[0..2]), ParseHex(d[2..6]);
    assert ParseHex(d) == hi * 65536 + lo;
    assert lo == ParseHex(d[2..4]) * 256 + ParseHex(d[4..6]);
  }

  /** Three-digit shorthand: each digit is doubled, so each channel is 17 times it. */
  lemma ShorthandChannels(hex: string)
    requires IsValidHexInput(hex) && |RemoveFirst(hex, '#')| == 3
    ensures var c := RemoveFirst(hex, '#');
      HexToRgb(hex) == (17 * DigitValue(c[0]), 17 * DigitValue(c[1]), 17 * DigitValue(c[2]))
  {
    var c := RemoveFirst(hex, '#');
    var d := ExpandedDigits(hex);
    assert d == [c[0], c[0], c[1], c[1], c[2], c[2]];
    SixDigits(d);
    ParseHexPair(d[0..2]);
    ParseHexPair(d[2..4]);
    ParseHexPair(d[4..6]);
    var rgb := HexToRgb(hex);
    BytesUnique(rgb.0, rgb.1, rgb.2,
      17 * DigitValue(c[0]), 17 * DigitValue(c[1]), 17 * DigitValue(c[2]));
  }

  /** Whatever the command line accepts, hexToHSL parses as six digits. */
  lemma CliInputIsValid(input: string)
    requires CliAccepts(input)
    ensures ExpandedDigits(input) == input[|input| - 6..]
  {
  }

  /** x is the largest of x, y and z, and y and z lie no more than d below it. */
  predicate Dominates(x: real, y: real, z: real, d: real) {
    y <= x && z <= x && x - d <= y && x - d <= z
  }

  /**
   * Red's hue formula, in sixths of a turn: (g - b) / d, plus 6 when g < b.
   * With red largest it falls in red's sector: 0 to 1, or 5 up to 6.
   */
  function RedHue(rN: real, gN: real, bN: real, d: real): (h: real)
    requires d > 0.0
    ensures Dominates(rN, gN, bN, d) ==> 0.0 <= h <= 1.0 || 5.0 <= h < 6.0
  {
    QuotientWithinOne(gN - bN, d);
    (gN - bN) / d + (if gN < bN then 6.0 else 0.0)
  }

  /** Green's hue formula, (b - r) / d + 2: with green largest, from 1 to 3. */
  function GreenHue(rN: real, gN: real, bN: real, d: real): (h: real)
    requires d > 0.0
    ensures Dominates(gN, rN, bN, d) ==> 1.0 <= h <= 3.0
  {
    QuotientWithinOne(bN - rN, d);
    (bN - rN) / d + 2.0
  }

  /** Blue's hue formula, (r - g) / d + 4: with blue largest, from 3 to 5. */
  function BlueHue(rN: real, gN: real, bN: real, d: real): (h: real)
    requires d > 0.0
    ensures Dominates(bN, rN, gN, d) ==> 3.0 <= h <= 5.0
  {
    QuotientWithinOne(rN - gN, d);
    (rN - gN) / d + 4.0
  }

  predicate IsUnit(x: real) { 0.0 <= x <= 1.0 }

  lemma MulNonneg(x: real, y: real)
    requires 0.0 <= x && 0.0 <= y
    ensures 0.0 <= x * y
  {
  }

  lemma DivSelf(d: real)
    requires d != 0.0
    ensures d / d == 1.0 && (-d) / d == -1.0
  {
  }

  /** A difference no larger than the divisor gives a quotient in [-1, 1] of the same sign. */
  lemma QuotientWithinOne(x: real, d: real)
    requires d > 0.0
    ensures -d <= x <= d ==> -1.0 <= x / d <= 1.0
    ensures 0.0 < x ==> 0.0 < x / d
    ensures x < 0.0 ==> x / d < 0.0
  {
    var q := x / d;
    assert q * d == x;
  }

  /**
   * The hue before `h /= 6`, in sixths of a turn: the switch on the largest
   * channel, red's case first, then green's, then blue's.
   */
  function HueSixths(rN: real, gN: real, bN: real): (h: real)
    requires IsUnit(rN) && IsUnit(gN) && IsUnit(bN)
    requires Max3(rN, gN, bN) != Min3(rN, gN, bN)
    ensures 0.0 <= h <= 6.0
  {
    var mx, mn := Max3(rN, gN, bN), Min3(rN, gN, bN);
    var d := mx - mn;
    if mx == rN then RedHue(rN, gN, bN, d)
    else if mx == gN then GreenHue(rN, gN, bN, d)
    else BlueHue(rN, gN, bN, d)
  }

  /**
   * The order of the switch cases does not matter: whichever channels tie
   * for the largest, each one's formula gives the hue the switch picks.
   */
  lemma HueCaseOrderIrrelevant(rN: real, gN: real, bN: real)
    requires IsUnit(rN) && IsUnit(gN) && IsUnit(bN)
    requires Max3(rN, gN, bN) != Min3(rN, gN, bN)
    ensures var mx := Max3(rN, gN, bN); var d := mx - Min3(rN, gN, bN);
      && (rN == mx ==> HueSixths(rN, gN, bN) == RedHue(rN, gN, bN, d))
      && (gN == mx ==> HueSixths(rN, gN, bN) == GreenHue(rN, gN, bN, d))
      && (bN == mx ==> HueSixths(rN, gN, bN) == BlueHue(rN, gN, bN, d))
  {
    var mx, mn := Max3(rN, gN, bN), Min3(rN, gN, bN);
    var d := mx - mn;
    DivSelf(d);
    if rN == mx && gN == mx {
      assert (gN - bN) / d == 1.0 && (bN - rN) / d == -1.0;
    }
    if rN == mx && bN == mx {
      assert (gN - bN) / d == -1.0 && (rN - gN) / d == 1.0;
    }
    if gN == mx && bN == mx {
      assert (bN - rN) / d == 1.0 && (rN - gN) / d == -1.0;
    }
  }

  /**
   * The hue lies in the sector of the largest channel: around 0 (from 5 to 6,
   * or 0 to 1 sixths) for red, 1 to 3 for green, 3 to 5 for blue.
   */
  lemma HueFollowsDominantChannel(rN: real, gN: real, bN: real)
    requires IsUnit(rN) && IsUnit(gN) && IsUnit(bN)
    requires Max3(rN, gN, bN) != Min3(rN, gN, bN)
    ensures var h, mx := HueSixths(rN, gN, bN), Max3(rN, gN, bN);
      && (rN == mx ==> h <= 1.0 || 5.0 <= h)
      && (gN == mx ==> 1.0 <= h <= 3.0)
      && (bN == mx ==> 3.0 <= h <= 5.0)
  {
    var mx, mn := Max3(rN, gN, bN), Min3(rN, gN, bN);
    var d := mx - mn;
    HueCaseOrderIrrelevant(rN, gN, bN);
    assert rN == mx ==> Dominates(rN, gN, bN, d);
    assert gN == mx ==> Dominates(gN, rN, bN, d);
    assert bN == mx ==> Dominates(bN, rN, gN, d);
  }

  /**
   * Saturation from the largest and smallest normalised channels:
   * d / (2 - max - min) when lightness is above one half, else d / (max + min).
   */
  function Saturation(mx: real, mn: real): (s: real)
    requires 0.0 <= mn < mx <= 1.0
    ensures 0.0 < s <= 1.0
  {
    var l := (mx + mn) / 2.0;
    var d := mx - mn;
    if l > 0.5 then
      QuotientWithinOne(d, 2.0 - mx - mn);
      d / (2.0 - mx - mn)
    else
      QuotientWithinOne(d, mx + mn);
      d / (mx + mn)
  }

  /** hexToHSL once the channels are known, rounded as Math.round does. */
  function RgbToHsl(r: int, g: int, b: int): (c: HSL)
    requires 0 <= r < 256 && 0 <= g < 256 && 0 <= b < 256
    ensures 0 <= c.h <= 360 && 0 <= c.s <= 100 && 0 <= c.l <= 100
    ensures r == g == b ==> c.h == 0 && c.s == 0 && c.l == Round(100.0 * (r as real / 255.0))
  {
    var rN, gN, bN := r as real / 255.0, g as real / 255.0, b as real / 255.0;
    var mx, mn := Max3(rN, gN, bN), Min3(rN, gN, bN);
    var l := (mx + mn) / 2.0;
    var h := if mx == mn then 0.0 else HueSixths(rN, gN, bN) / 6.0;
    var s := if mx == mn then 0.0 else Saturation(mx, mn);
    RoundWithin(h * 360.0, 0, 360);
    RoundWithin(s * 100.0, 0, 100);
    RoundWithin(l * 100.0, 0, 100);
    HSL(Round(h * 360.0), Round(s * 100.0), Round(l * 100.0))
  }

  /**
   * hexToHSL: hue in [0, 360] (360 itself is reachable), saturation and
   * lightness in [0, 100]; a grey has hue and saturation 0.
   */
  function HexToHSL(hex: string): (c: HSL)
    requires IsValidHexInput(hex)
    ensures 0 <= c.h <= 360 && 0 <= c.s <= 100 && 0 <= c.l <= 100
    ensures var (r, g, b) := HexToRgb(hex); r == g == b ==> c.h == 0 && c.s == 0
  {
    var rgb := HexToRgb(hex);
    RgbToHsl(rgb.0, rgb.1, rgb.2)
  }

  /** A red a shade towards blue rounds to hue 360, not 0. */
  lemma HueReaches360()
    ensures RgbToHsl(255, 0, 1).h == 360
  {
    var rN, gN, bN := 1.0, 0.0, 1.0 / 255.0;
    assert Max3(rN, gN, bN) == 1.0 && Min3(rN, gN, bN) == 0.0;
    assert HueSixths(rN, gN, bN) == 6.0 - 1.0 / 255.0;
  }

  /**
   * The hue hexToHSL returns, in degrees, lies in the sector of the largest
   * channel: red from 300 to 360 or 0 to 60, green 60 to 180, blue 180 to 300.
   */
  lemma HueDegreesFollowDominantChannel(r: int, g: int, b: int)
    requires 0 <= r < 256 && 0 <= g < 256 && 0 <= b < 256
    requires !(r == g == b)
    ensures var h := RgbToHsl(r, g, b).h;
      && (g <= r && b <= r ==> h <= 60 || 300 <= h)
      && (r <= g && b <= g ==> 60 <= h <= 180)
      && (r <= b && g <= b ==> 180 <= h <= 300)
  {
    var rN, gN, bN := r as real / 255.0, g as real / 255.0, b as real / 255.0;
    assert Max3(rN, gN, bN) != Min3(rN, gN, bN);
    var h6 := HueSixths(rN, gN, bN);
    var x := h6 / 6.0 * 360.0;
    assert x == 60.0 * h6;
    assert RgbToHsl(r, g, b).h == Round(x);
    HueFollowsDominantChannel(rN, gN, bN);
    if g <= r && b <= r {
      if h6 <= 1.0 {
        RoundWithin(x, 0, 60);
      } else {
        RoundWithin(x, 300, 360);
      }
    }
    if r <= g && b <= g {
      RoundWithin(x, 60, 180);
    }
    if r <= b && g <= b {
      RoundWithin(x, 180, 300);
    }
  }

  // ---------------------------------------------------------------------
  // hslToHex
  // ---------------------------------------------------------------------

  /** Saturation and lightness inside [0, 100], the range hexToHSL produces. */
  predicate InRange(c: HSL) {
    0 <= c.s <= 100 && 0 <= c.l <= 100
  }

  /**
   * k(n) = (n + h / 30) % 12: the position, in twelfths of a turn, that
   * channel n reads the hue circle at, shifted by a whole number of turns
   * into [0, 12) when it is non-negative and into (-12, 0] when it is not.
   */
  function HueRotation(h: int, n: int): (k: real)
    ensures var x := n as real + h as real / 30.0;
      && (0.0 <= x ==> 0.0 <= k < 12.0)
      && (x < 0.0 ==> -12.0 < k <= 0.0)
      && x - k == 12.0 * Trunc(x / 12.0) as real
  {
    Rem12(n as real + h as real / 30.0)
  }

  /** a = s * min(l, 1 - l), with s and l as fractions. */
  function Chroma(c: HSL): real {
    var s, l := c.s as real / 100.0, c.l as real / 100.0;
    s * Min(l, 1.0 - l)
  }

  /** The chroma of an in-range colour fits between 0 and the lightness's distance to 0 and 1. */
  lemma ChromaBounds(c: HSL)
    requires InRange(c)
    ensures var l := c.l as real / 100.0;
      0.0 <= Chroma(c) && Chroma(c) <= l && Chroma(c) <= 1.0 - l
  {
    var s, l := c.s as real / 100.0, c.l as real / 100.0;
    var m := Min(l, 1.0 - l);
    assert 0.0 <= s <= 1.0 && 0.0 <= m;
    MulNonneg(s, m);
    MulNonneg(1.0 - s, m);
    assert m - s * m == (1.0 - s) * m;
  }

  /** A factor in [-1, 1] keeps a non-negative number within its own magnitude. */
  lemma ScaledWithin(a: real, t: real)
    requires 0.0 <= a && -1.0 <= t <= 1.0
    ensures -a <= a * t <= a
  {
    MulNonneg(a, 1.0 - t);
    MulNonneg(a, 1.0 + t);
  }

  /** max(-1, min(k - 3, 9 - k, 1)): the trapezoid that shapes each channel along the hue circle. */
  function Tent(k: real): (t: real)
    ensures -1.0 <= t <= 1.0
  {
    Max(-1.0, Min(Min(k - 3.0, 9.0 - k), 1.0))
  }

  /** One channel as a fraction: l - a * max(-1, min(k(n) - 3, 9 - k(n), 1)). */
  function ChannelLevel(c: HSL, n: int): (v: real)
    ensures InRange(c) ==>
      var l := c.l as real / 100.0;
      && l - Chroma(c) <= v <= l + Chroma(c)
      && 0.0 <= l - Chroma(c) && l + Chroma(c) <= 1.0
  {
    var l := c.l as real / 100.0;
    var a, t := Chroma(c), Tent(HueRotation(c.h, n));
    assert InRange(c) ==> -a <= a * t <= a && 0.0 <= l - a && l + a <= 1.0 by {
      if InRange(c) {
        ChromaBounds(c);
        ScaledWithin(a, t);
      }
    }
    l - a * t
  }

  /** Math.round(255 * color): one byte of an in-range colour. */
  function ChannelByte(c: HSL, n: int): (b: int)
    ensures InRange(c) ==> 0 <= b <= 255
  {
    var v := ChannelLevel(c, n);
    assert InRange(c) ==> 0 <= Round(255.0 * v) <= 255 by {
      if InRange(c) {
        RoundWithin(255.0 * v, 0, 255);
      }
    }
    Round(255.0 * v)
  }

  /** toString(16).padStart(2, '0') on a channel. */
  function ByteHex(x: int): string {
    PadStart(ToHexString(x), 2, '0')
  }

  /**
   * The template `#${f(0)}${f(8)}${f(4)}`.toUpperCase() with the three
   * channels already rounded: for bytes, '#' and six upper-case digits whose
   * pairs read back as the bytes in order.
   */
  function HexOfBytes(r: int, g: int, b: int): (color: string)
    ensures 0 <= r < 256 && 0 <= g < 256 && 0 <= b < 256 ==>
      IsHexColor(color) && DigitPairs(color[1..]) == (r, g, b)
  {
    var color := ToUpper("#" + ByteHex(r) + ByteHex(g) + ByteHex(b));
    assert 0 <= r < 256 && 0 <= g < 256 && 0 <= b < 256 ==>
      IsHexColor(color) && DigitPairs(color[1..]) == (r, g, b) by {
      if 0 <= r < 256 && 0 <= g < 256 && 0 <= b < 256 {
        HexColorOfBytes(r, g, b);
      }
    }
    color
  }

  /** Three bytes written as '#' and two padded digits each, then upper-cased. */
  lemma HexColorOfBytes(r: int, g: int, b: int)
    requires 0 <= r < 256 && 0 <= g < 256 && 0 <= b < 256
    ensures var color := ToUpper("#" + ByteHex(r) + ByteHex(g) + ByteHex(b));
      IsHexColor(color) && DigitPairs(color[1..]) == (r, g, b)
  {
    var ur, ug, ub := ToUpper(ByteHex(r)), ToUpper(ByteHex(g)), ToUpper(ByteHex(b));
    ByteDigits(r);
    ByteDigits(g);
    ByteDigits(b);
    UpperTemplate(ByteHex(r), ByteHex(g), ByteHex(b));
    PairsOf(ur, ug, ub);
  }

  /** Upper-casing '#' followed by three pieces upper-cases each piece. */
  lemma UpperTemplate(a: string, b: string, c: string)
    ensures ToUpper("#" + a + b + c) == "#" + ToUpper(a) + ToUpper(b) + ToUpper(c)
  {
    ToUpperConcat("#" + a + b, c);
    ToUpperConcat("#" + a, b);
    ToUpperConcat("#", a);
    assert ToUpper("#") == "#";
  }

  /** '#' and three two-digit pieces form a colour whose digit pairs are the pieces. */
  lemma PairsOf(a: string, b: string, c: string)
    requires |a| == 2 && |b| == 2 && |c| == 2
    requires AllUpperHexDigits(a) && AllUpperHexDigits(b) && AllUpperHexDigits(c)
    requires AllHexDigits(a) && AllHexDigits(b) && AllHexDigits(c)
    ensures IsHexColor("#" + a + b + c)
    ensures DigitPairs(("#" + a + b + c)[1..]) == (ParseHex(a), ParseHex(b), ParseHex(c))
  {
    var color := "#" + a + b + c;
    var d := color[1..];
    assert d == a + b + c;
    assert d[0..2] == a && d[2..4] == b && d[4..6] == c;
  }

  /** One byte as ByteHex writes it, upper-cased: two digits reading back as the byte. */
  lemma ByteDigits(x: int)
    requires 0 <= x < 256
    ensures var t := ToUpper(ByteHex(x));
      |t| == 2 && AllUpperHexDigits(t) && AllHexDigits(t) && ParseHex(t) == x
  {
    assert Pow16(2) == 256;
    PaddedHex(x, 2);
  }

  /**
   * hslToHex: for in-range saturation and lightness, '#' and six upper-case
   * digits whose pairs read back as the rounded red (k(0)), green (k(8)) and
   * blue (k(4)) channels.
   */
  function HslToHex(c: HSL): (color: string)
    ensures InRange(c) ==>
      IsHexColor(color) && DigitPairs(color[1..]) == (ChannelByte(c, 0), ChannelByte(c, 8), ChannelByte(c, 4))
  {
    HexOfBytes(ChannelByte(c, 0), ChannelByte(c, 8), ChannelByte(c, 4))
  }

  /** The output of hslToHex is a valid hexToHSL input that yields the same bytes. */
  lemma HslToHexParsesBack(c: HSL)
    requires InRange(c)
    ensures IsValidHexInput(HslToHex(c))
    ensures HexToRgb(HslToHex(c)) == (ChannelByte(c, 0), ChannelByte(c, 8), ChannelByte(c, 4))
  {
    var color := HslToHex(c);
    CliInputIsValid(color);
    HexChannels(color);
  }

  /** Zero saturation gives a grey: all three bytes are round(255 * l / 100). */
  lemma HslToHexGrey(c: HSL)
    requires InRange(c) && c.s == 0
    ensures var v := Round(255.0 * (c.l as real / 100.0));
      DigitPairs(HslToHex(c)[1..]) == (v, v, v)
  {
    GreyChannel(c, 0);
    GreyChannel(c, 8);
    GreyChannel(c, 4);
  }

  lemma GreyChannel(c: HSL, n: int)
    requires c.s == 0
    ensures ChannelByte(c, n) == Round(255.0 * (c.l as real / 100.0))
  {
    assert Chroma(c) == 0.0;
    assert ChannelLevel(c, n) == c.l as real / 100.0;
  }

  /** A full turn of hue changes nothing: h and h + 360 give the same colour. */
  lemma HslToHexHueTurn(c: HSL)
    requires c.h >= 0
    ensures HslToHex(c.(h := c.h + 360)) == HslToHex(c)
  {
    ChannelByteTurn(c, 0);
    ChannelByteTurn(c, 4);
    ChannelByteTurn(c, 8);
  }

  lemma ChannelByteTurn(c: HSL, n: int)
    requires c.h >= 0 && n >= 0
    ensures ChannelByte(c.(h := c.h + 360), n) == ChannelByte(c, n)
  {
    var c' := c.(h := c.h + 360);
    HueRotationTurn(c.h, n);
    assert Chroma(c') == Chroma(c);
    assert ChannelLevel(c', n) == ChannelLevel(c, n);
  }

  lemma HueRotationTurn(h: int, n: int)
    requires h >= 0 && n >= 0
    ensures HueRotation(h + 360, n) == HueRotation(h, n)
  {
    assert n as real + (h + 360) as real / 30.0 == (n as real + h as real / 30.0) + 12.0;
    Rem12Shift(n as real + h as real / 30.0);
  }

  // ---------------------------------------------------------------------
  // generateRelatedPalette
  // ---------------------------------------------------------------------

  predicate IsPaletteStyle(style: string) {
    || style == "analogous" || style == "monochromatic" || style == "complementary"
    || style == "triadic" || style == "tetradic"
  }

  /** The five palette styles. */
  type PaletteStyle = s: string | IsPaletteStyle(s) witness "analogous"

  /** The offset table of each style: hue degrees, or lightness points for monochromatic. */
  function Offsets(style: PaletteStyle): (offsets: seq<int>)
    ensures |offsets| == 5
  {
    if style == "analogous" then [0, -30, 30, -60, 60]
    else if style == "monochromatic" then [-30, -15, 0, 15, 30]
    else if style == "complementary" then [0, 180, 150, 210, 30]
    else if style == "triadic" then [0, 120, 240, 110, 250]
    else [0, 90, 180, 270, 45]
  }

  /** Math.max(0, Math.min(100, x)). */
  function ClampPercent(x: int): (y: int)
    ensures 0 <= y <= 100
    ensures 0 <= x <= 100 ==> y == x
    ensures x < 0 ==> y == 0
    ensures x > 100 ==> y == 100
  {
    IntMax(0, IntMin(100, x))
  }

  /**
   * The colours handed to hslToHex: the base with its hue turned by each
   * offset (analogous adds 360 first to absorb the negative offsets), or,
   * for monochromatic, its lightness moved by each offset and clamped.
   */
  function Variants(base: HSL, style: PaletteStyle): (vs: seq<HSL>)
    ensures |vs| == 5
    ensures style == "monochromatic" ==> forall i :: 0 <= i < 5 ==>
      && vs[i].h == base.h && vs[i].s == base.s
      && vs[i].l == ClampPercent(base.l + Offsets(style)[i])
    ensures style != "monochromatic" && base.h >= 0 ==> forall i :: 0 <= i < 5 ==>
      && 0 <= vs[i].h < 360 && (vs[i].h - base.h - Offsets(style)[i]) % 360 == 0
      && vs[i].s == base.s && vs[i].l == base.l
  {
    var offsets := Offsets(style);
    if style == "analogous" then
      seq(5, i requires 0 <= i < 5 => base.(h := RemInt(base.h + offsets[i] + 360, 360)))
    else if style == "monochromatic" then
      seq(5, i requires 0 <= i < 5 => base.(l := ClampPercent(base.l + offsets[i])))
    else
      seq(5, i requires 0 <= i < 5 => base.(h := RemInt(base.h + offsets[i], 360)))
  }

  /**
   * The base colour itself is among the variants: the first one for the hue
   * styles (offset 0, hue below 360), the middle one for monochromatic.
   */
  lemma BaseInVariants(base: HSL, style: PaletteStyle)
    requires 0 <= base.h < 360 && 0 <= base.l <= 100
    ensures style != "monochromatic" ==> Variants(base, style)[0] == base
    ensures style == "monochromatic" ==> Variants(base, style)[2] == base
  {
  }

  /** hslToHex mapped over the variants of a base colour. */
  function PaletteFromHsl(base: HSL, style: PaletteStyle): (palette: seq<string>)
    ensures |palette| == 5
    ensures InRange(base) ==> forall i :: 0 <= i < 5 ==> IsHexColor(palette[i])
  {
    var vs := Variants(base, style);
    seq(5, i requires 0 <= i < 5 => HslToHex(vs[i]))
  }

  /** A base hue and the same hue a full turn later give the same palette. */
  lemma PaletteHueTurn(base: HSL, style: PaletteStyle)
    requires base.h >= 0
    ensures PaletteFromHsl(base.(h := base.h + 360), style) == PaletteFromHsl(base, style)
  {
    var base' := base.(h := base.h + 360);
    var p, p' := PaletteFromHsl(base, style), PaletteFromHsl(base', style);
    forall i | 0 <= i < 5
      ensures p'[i] == p[i]
    {
      VariantTurn(base, style, i);
    }
  }

  /** One variant of the turned base is the same colour as the variant of the base. */
  lemma VariantTurn(base: HSL, style: PaletteStyle, i: int)
    requires base.h >= 0 && 0 <= i < 5
    ensures HslToHex(Variants(base.(h := base.h + 360), style)[i]) == HslToHex(Variants(base, style)[i])
  {
    var base' := base.(h := base.h + 360);
    var v, v' := Variants(base, style)[i], Variants(base', style)[i];
    if style == "monochromatic" {
      assert v' == v.(h := v.h + 360);
      HslToHexHueTurn(v);
    } else {
      var x := base.h + Offsets(style)[i] + (if style == "analogous" then 360 else 0);
      assert x >= 0;
      RemIntTurn(x);
      assert v'.h == v.h;
      assert v' == v;
    }
  }

  /** Adding 360 before `% 360` changes nothing for a non-negative dividend. */
  lemma RemIntTurn(x: int)
    requires x >= 0
    ensures RemInt(x + 360, 360) == RemInt(x, 360)
  {
  }

  /**
   * generateRelatedPalette: five well-formed colours for each named style;
   * any other style gives back the base colour alone, untouched.
   */
  function GenerateRelatedPalette(baseHex: string, style: string): (palette: seq<string>)
    requires IsPaletteStyle(style) ==> IsValidHexInput(baseHex)
    ensures IsPaletteStyle(style) ==>
      |palette| == 5 && forall i :: 0 <= i < 5 ==> IsHexColor(palette[i])
    ensures IsPaletteStyle(style) ==> forall i :: 0 <= i < 5 ==>
      palette[i] == HslToHex(Variants(HexToHSL(baseHex), style)[i])
    ensures !IsPaletteStyle(style) ==> palette == [baseHex]
  {
    if IsPaletteStyle(style) then PaletteFromHsl(HexToHSL(baseHex), style)
    else [baseHex]
  }

  /** A worked example: the complementary palette of hue 204 turns it to 204, 24, 354, 54 and 234. */
  lemma ComplementaryExample()
    ensures var vs := Variants(HSL(204, 70, 53), "complementary");
      vs == [HSL(204, 70, 53), HSL(24, 70, 53), HSL(354, 70, 53), HSL(54, 70, 53), HSL(234, 70, 53)]
  {
  }

  /** A worked example: #3498DB is hue 204, saturation 70, lightness 53. */
  lemma HexExample()
    ensures IsValidHexInput("#3498DB")
    ensures HexToRgb("#3498DB") == (52, 152, 219)
    ensures HexToHSL("#3498DB") == HSL(204, 70, 53)
  {
    var hex := "#3498DB";
    var d := "3498DB";
    assert hex[0] == '#' && hex[1..] == d;
    assert AllHexDigits(d) by {
      assert IsHexDigit(d[0]) && IsHexDigit(d[1]) && IsHexDigit(d[2]);
      assert IsHexDigit(d[3]) && IsHexDigit(d[4]) && IsHexDigit(d[5]);
    }
    HexChannels(hex);
    ParseHexPair(d[0..2]);
    ParseHexPair(d[2..4]);
    ParseHexPair(d[4..6]);
    RgbExample();
  }

  lemma RgbExample()
    ensures RgbToHsl(52, 152, 219) == HSL(204, 70, 53)
  {
    var rN, gN, bN := 52.0 / 255.0, 152.0 / 255.0, 219.0 / 255.0;
    assert Max3(rN, gN, bN) == bN && Min3(rN, gN, bN) == rN;
    assert HueSixths(rN, gN, bN) == (rN - gN) / (bN - rN) + 4.0;
    assert Saturation(bN, rN) == 167.0 / 239.0;
  }

  /** A worked example of hslToHex: full saturation at half lightness and hue 0 is pure red. */
  lemma RedExample()
    ensures IsHexColor(HslToHex(HSL(0, 100, 50)))
    ensures DigitPairs(HslToHex(HSL(0, 100, 50))[1..]) == (255, 0, 0)
  {
    var c := HSL(0, 100, 50);
    assert Chroma(c) == 0.5;
    assert HueRotation(0, 0) == 0.0 && HueRotation(0, 8) == 8.0 && HueRotation(0, 4) == 4.0;
    assert ChannelByte(c, 0) == 255 && ChannelByte(c, 8) == 0 && ChannelByte(c, 4) == 0;
  }

  // ---------------------------------------------------------------------
  // paletteStyleDescriptions
  // ---------------------------------------------------------------------

  /** The description of each style, keyed by its name. */
  const PaletteStyleDescriptions: map<string, string> := map[
    "analogous" := "Colors next to each other on the color wheel; harmonious and pleasing.",
    "monochromatic" := "Different shades and tints of the same hue; subtle and unified.",
    "complementary" := "Colors opposite each other on the color wheel; high contrast.",
    "triadic" := "Three colors evenly spaced on the color wheel; vibrant and balanced.",
    "tetradic" := "Four colors forming a rectangle on the color wheel; rich and diverse."
  ]

  /** Exactly the five styles have a description, and no two styles share one. */
  lemma DescriptionsCoverStyles()
    ensures forall style :: style in PaletteStyleDescriptions <==> IsPaletteStyle(style)
    ensures forall s1, s2 ::
      s1 in PaletteStyleDescriptions && s2 in PaletteStyleDescriptions && s1 != s2 ==>
      PaletteStyleDescriptions[s1] != PaletteStyleDescriptions[s2]
  {
  }
}
