/**
 * The JavaScript built-ins the colour module relies on, stated on exact
 * numbers: Math.round, Math.max/Math.min, the `%` operator, `>>` and `& 255`
 * on small non-negative integers, Number.prototype.toString(16),
 * String.prototype.padStart, String.prototype.toUpperCase, parseInt(s, 16)
 * and String.prototype.replace with a one-character pattern.
 */
module JsRuntime {

  // ---------------------------------------------------------------------
  // Numbers
  // ---------------------------------------------------------------------

  /** Math.round: the nearest integer, halves rounded towards +infinity. */
  function Round(x: real): (n: int)
    ensures n as real - 0.5 <= x < n as real + 0.5
  {
    (x + 0.5).Floor
  }

  /** Rounding never leaves an interval with integer end points. */
  lemma RoundWithin(x: real, lo: int, hi: int)
    requires lo as real <= x <= hi as real
    ensures lo <= Round(x) <= hi
  {
  }

  function Max(x: real, y: real): real { if x >= y then x else y }
  function Min(x: real, y: real): real { if x <= y then x else y }
  function Max3(x: real, y: real, z: real): real { Max(Max(x, y), z) }
  function Min3(x: real, y: real, z: real): real { Min(Min(x, y), z) }
  function IntMax(x: int, y: int): int { if x >= y then x else y }
  function IntMin(x: int, y: int): int { if x <= y then x else y }

  /** The quotient of x / m truncated towards zero, as `%` in JavaScript uses it. */
  function TruncDiv(x: int, m: int): int
    requires m > 0
  {
    if x >= 0 then x / m else -((-x) / m)
  }

  /**
   * JavaScript's `x % m` on integers: what is left of x once the quotient
   * truncated towards zero is taken away, so it has the sign of x.
   */
  function RemInt(x: int, m: int): (r: int)
    requires m > 0
    ensures x == m * TruncDiv(x, m) + r
    ensures 0 <= x ==> 0 <= r < m
    ensures x < 0 ==> -m < r <= 0
  {
    if x >= 0 then x % m else -((-x) % m)
  }

  /** A real number truncated towards zero. */
  function Trunc(y: real): int {
    if y >= 0.0 then y.Floor else -((-y).Floor)
  }

  /**
   * JavaScript's `x % 12` on numbers, the only real remainder the colour
   * code takes: the remainder of division truncated towards zero.
   */
  function Rem12(x: real): (r: real)
    ensures x == 12.0 * Trunc(x / 12.0) as real + r
    ensures 0.0 <= x ==> 0.0 <= r < 12.0
    ensures x < 0.0 ==> -12.0 < r <= 0.0
  {
    if x >= 0.0 then x - 12.0 * (x / 12.0).Floor as real
    else
      assert (-x) / 12.0 == -(x / 12.0);
      -((-x) - 12.0 * ((-x) / 12.0).Floor as real)
  }

  /** A whole turn of twelve does not change the remainder of a non-negative number. */
  lemma Rem12Shift(x: real)
    requires x >= 0.0
    ensures Rem12(x + 12.0) == Rem12(x)
  {
    assert ((x + 12.0) / 12.0).Floor == (x / 12.0).Floor + 1;
  }

  function Pow2(k: nat): (p: nat)
    ensures p >= 1
  {
    if k == 0 then 1 else 2 * Pow2(k - 1)
  }

  /** `x >> k` for 0 <= x < 2^31, where ToInt32 leaves x as it is. */
  function ShiftRight(x: int, k: nat): (r: int)
    requires 0 <= x < 0x8000_0000 && k < 32
    ensures 0 <= r && Pow2(k) * r <= x < Pow2(k) * r + Pow2(k)
  {
    FloorQuotient(x, Pow2(k));
    x / Pow2(k)
  }

  /** Integer division of a non-negative number rounds the quotient down. */
  lemma FloorQuotient(x: int, p: int)
    requires 0 <= x && 0 < p
    ensures 0 <= x / p && p * (x / p) <= x < p * (x / p) + p
  {
  }

  /** `x & 255` for a non-negative x: its lowest eight bits. */
  function And255(x: int): (r: int)
    requires 0 <= x
    ensures 0 <= r < 256 && (x - r) % 256 == 0
  {
    x % 256
  }

  // ---------------------------------------------------------------------
  // Hexadecimal digits
  // ---------------------------------------------------------------------

  predicate IsHexDigit(c: char) {
    '0' <= c <= '9' || 'a' <= c <= 'f' || 'A' <= c <= 'F'
  }

  predicate IsLowerHexDigit(c: char) {
    '0' <= c <= '9' || 'a' <= c <= 'f'
  }

  predicate IsUpperHexDigit(c: char) {
    '0' <= c <= '9' || 'A' <= c <= 'F'
  }

  predicate AllHexDigits(s: string) {
    forall i :: 0 <= i < |s| ==> IsHexDigit(s[i])
  }

  predicate AllUpperHexDigits(s: string) {
    forall i :: 0 <= i < |s| ==> IsUpperHexDigit(s[i])
  }

  function DigitValue(c: char): (v: nat)
    requires IsHexDigit(c)
    ensures v < 16
  {
    if '0' <= c <= '9' then c as int - '0' as int
    else if 'a' <= c <= 'f' then c as int - 'a' as int + 10
    else c as int - 'A' as int + 10
  }

  /** The lower-case digit toString(16) writes for a value below 16. */
  function LowerDigit(v: nat): (c: char)
    requires v < 16
    ensures IsLowerHexDigit(c) && DigitValue(c) == v
  {
    if v < 10 then ('0' as int + v) as char else ('a' as int + v - 10) as char
  }

  function Pow16(k: nat): (p: nat)
    ensures p >= 1
  {
    if k == 0 then 1 else 16 * Pow16(k - 1)
  }

  /**
   * parseInt(s, 16) on a non-empty string made only of hexadecimal digits
   * (of either case); the empty string, on which parseInt gives NaN, reads
   * as 0 here and is never parsed by the colour code.
   */
  function ParseHex(s: string): (n: nat)
    requires AllHexDigits(s)
    ensures n < Pow16(|s|)
    decreases |s|
  {
    if s == [] then 0 else ParseHex(s[..|s| - 1]) * 16 + DigitValue(s[|s| - 1])
  }

  /** Reading a + b is reading a, shifted left by |b| digits, plus b. */
  lemma {:induction false} ParseHexAppend(a: string, b: string)
    requires AllHexDigits(a) && AllHexDigits(b)
    ensures AllHexDigits(a + b)
    ensures ParseHex(a + b) == ParseHex(a) * Pow16(|b|) + ParseHex(b)
    decreases |b|
  {
    if b == [] {
      assert a + b == a;
    } else {
      var b' := b[..|b| - 1];
      var last := b[|b| - 1];
      assert (a + b)[..|a + b| - 1] == a + b';
      assert (a + b)[|a + b| - 1] == last;
      ParseHexAppend(a, b');
      var pa, pb, p := ParseHex(a), ParseHex(b'), Pow16(|b'|);
      assert ParseHex(a + b) == ParseHex(a + b') * 16 + DigitValue(last);
      assert ParseHex(b) == pb * 16 + DigitValue(last) by {
        assert b[..|b| - 1] == b';
      }
      ShiftedSum(pa, p, pb);
    }
  }

  lemma ShiftedSum(pa: int, p: int, pb: int)
    ensures (pa * p + pb) * 16 == pa * (p * 16) + pb * 16
  {
  }

  /** A run of '0' digits reads as zero. */
  lemma {:induction false} ParseHexZeros(z: string)
    requires forall i :: 0 <= i < |z| ==> z[i] == '0'
    ensures AllHexDigits(z) && ParseHex(z) == 0
    decreases |z|
  {
    if z != [] {
      ParseHexZeros(z[..|z| - 1]);
    }
  }

  /** Two digit strings whose digits have the same values read the same. */
  lemma {:induction false} ParseHexSameDigits(s: string, t: string)
    requires AllHexDigits(s) && AllHexDigits(t) && |s| == |t|
    requires forall i :: 0 <= i < |s| ==> DigitValue(s[i]) == DigitValue(t[i])
    ensures ParseHex(s) == ParseHex(t)
    decreases |s|
  {
    if s != [] {
      ParseHexSameDigits(s[..|s| - 1], t[..|t| - 1]);
    }
  }

  /** Two hexadecimal digits read as one byte, the first being the high nibble. */
  lemma ParseHexPair(s: string)
    requires |s| == 2 && AllHexDigits(s)
    ensures ParseHex(s) == 16 * DigitValue(s[0]) + DigitValue(s[1])
  {
    assert s[..1][..0] == [];
  }

  // ---------------------------------------------------------------------
  // Number.prototype.toString(16)
  // ---------------------------------------------------------------------

  /** toString(16) on a non-negative integer: lower-case digits, no leading zero. */
  function NatToHex(n: nat): (s: string)
    ensures 1 <= |s|
    ensures forall i :: 0 <= i < |s| ==> IsLowerHexDigit(s[i])
    ensures AllHexDigits(s) && ParseHex(s) == n
    ensures |s| > 1 ==> s[0] != '0'
    decreases n
  {
    if n < 16 then [LowerDigit(n)]
    else
      var p := NatToHex(n / 16);
      var s := p + [LowerDigit(n % 16)];
      assert s[..|s| - 1] == p;
      s
  }

  /** A value below 16^k needs at most k digits. */
  lemma {:induction false} NatToHexLength(n: nat, k: nat)
    requires 1 <= k && n < Pow16(k)
    ensures |NatToHex(n)| <= k
    decreases k
  {
    if n >= 16 {
      assert k != 1;
      NatToHexLength(n / 16, k - 1);
    }
  }

  /** toString(16) on any integer: a minus sign before the digits of a negative one. */
  function ToHexString(x: int): (s: string)
    ensures 0 <= x ==> s == NatToHex(x)
    ensures x < 0 ==> |s| >= 2 && s[0] == '-'
  {
    if x < 0 then "-" + NatToHex(-x) else NatToHex(x)
  }

  // ---------------------------------------------------------------------
  // Strings
  // ---------------------------------------------------------------------

  /** s.padStart(width, [pad]): pad characters in front up to the width. */
  function PadStart(s: string, width: nat, pad: char): (r: string)
    ensures |r| == if |s| >= width then |s| else width
    ensures r[|r| - |s|..] == s
    ensures forall i :: 0 <= i < |r| - |s| ==> r[i] == pad
  {
    if |s| >= width then s else seq(width - |s|, _ => pad) + s
  }

  /** toUpperCase on one character; only ASCII letters ever reach it here. */
  function UpperChar(c: char): char {
    if 'a' <= c <= 'z' then (c as int - 32) as char else c
  }

  /** String.prototype.toUpperCase, character by character. */
  function ToUpper(s: string): (r: string)
    ensures |r| == |s|
    ensures forall i :: 0 <= i < |s| && IsHexDigit(s[i]) ==>
      IsUpperHexDigit(r[i]) && IsHexDigit(r[i]) && DigitValue(r[i]) == DigitValue(s[i])
    ensures forall i :: 0 <= i < |s| && !('a' <= s[i] <= 'z') ==> r[i] == s[i]
  {
    seq(|s|, i requires 0 <= i < |s| => UpperChar(s[i]))
  }

  /** Upper-casing works piece by piece. */
  lemma ToUpperConcat(a: string, b: string)
    ensures ToUpper(a + b) == ToUpper(a) + ToUpper(b)
  {
    assert forall i :: 0 <= i < |a + b| ==> ToUpper(a + b)[i] == (ToUpper(a) + ToUpper(b))[i];
  }

  /** Upper-casing a digit string keeps its value. */
  lemma ParseHexUpper(s: string)
    requires AllHexDigits(s)
    ensures AllHexDigits(ToUpper(s)) && AllUpperHexDigits(ToUpper(s))
    ensures ParseHex(ToUpper(s)) == ParseHex(s)
  {
    ParseHexSameDigits(ToUpper(s), s);
  }

  /** Where c first occurs in s. */
  function FirstIndex(s: string, c: char): (i: nat)
    requires c in s
    ensures i < |s| && s[i] == c && c !in s[..i]
  {
    if s[0] == c then 0
    else
      var j := FirstIndex(s[1..], c);
      assert s[..j + 1] == [s[0]] + s[1..][..j];
      j + 1
  }

  /** s.replace(c, ''): the first occurrence of c removed, if there is one. */
  function RemoveFirst(s: string, c: char): (r: string)
    ensures c !in s ==> r == s
    ensures c in s ==> |r| == |s| - 1
    ensures |s| > 0 && s[0] == c ==> r == s[1..]
    ensures c in s ==> var i := FirstIndex(s, c); r == s[..i] + s[i + 1..]
  {
    if c !in s then s
    else
      var i := FirstIndex(s, c);
      s[..i] + s[i + 1..]
  }

  // ---------------------------------------------------------------------
  // Fixed-width hexadecimal
  // ---------------------------------------------------------------------

  /**
   * toString(16), then padStart(width, '0'), then toUpperCase: for a value
   * below 16^width this is exactly width upper-case digits reading back as
   * the value.
   */
  lemma PaddedHex(n: nat, width: nat)
    requires 1 <= width && n < Pow16(width)
    ensures var t := ToUpper(PadStart(ToHexString(n), width, '0'));
      |t| == width && AllUpperHexDigits(t) && AllHexDigits(t) && ParseHex(t) == n
  {
    var digits := NatToHex(n);
    NatToHexLength(n, width);
    var padded := PadStart(digits, width, '0');
    var zeros := padded[..width - |digits|];
    assert padded == zeros + digits;
    ParseHexZeros(zeros);
    ParseHexAppend(zeros, digits);
    ParseHexUpper(padded);
  }
}
