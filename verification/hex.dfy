/**
 Upper-case hexadecimal formatting as C's `printf` family prints it with a
 `%0<width>X` conversion, together with its inverse `HexValue`.
 */
module Hex {

  /** The characters `%X` can print. */
  predicate IsUpperHex(c: char) {
    ('0' <= c <= '9') || ('A' <= c <= 'F')
  }

  predicate AllUpperHex(s: string) {
    forall i :: 0 <= i < |s| ==> IsUpperHex(s[i])
  }

  /** The numeric value of one upper-case hexadecimal digit. */
  function DigitValue(c: char): (n: nat)
    requires IsUpperHex(c)
    ensures n < 16
  {
    if c <= '9' then c as int - '0' as int else c as int - 'A' as int + 10
  }

  /** The digit `%X` prints for a value below sixteen. */
  function HexDigit(n: nat): (c: char)
    requires n < 16
    ensures IsUpperHex(c)
    ensures DigitValue(c) == n
  {
    if n < 10 then ('0' as int + n) as char else ('A' as int + n - 10) as char
  }

  function Pow16(k: nat): (p: nat)
    ensures p >= 1
  {
    if k == 0 then 1 else 16 * Pow16(k - 1)
  }

  /** The value of a string of upper-case hexadecimal digits, most significant first. */
  function HexValue(s: string): nat
    requires AllUpperHex(s)
  {
    if |s| == 0 then 0 else HexValue(s[..|s| - 1]) * 16 + DigitValue(s[|s| - 1])
  }

  /** Exactly `width` digits: the lowest `width` hexadecimal digits of `v`. */
  function FixedHex(v: nat, width: nat): (s: string)
    ensures |s| == width
    ensures AllUpperHex(s)
  {
    if width == 0 then "" else FixedHex(v / 16, width - 1) + [HexDigit(v % 16)]
  }

  /** How many digits `%X` prints for `v` when no width is given: at least one. */
  function NumDigits(v: nat): (n: nat)
    ensures n >= 1
    ensures v < Pow16(n)
    ensures n > 1 ==> Pow16(n - 1) <= v
  {
    if v < 16 then 1 else 1 + NumDigits(v / 16)
  }

  /**
   `%0<width>X`: the digits of `v`, zero-padded on the left to at least `width`
   characters. A value too large for the width is printed in full, never cut.
   */
  function FormatHex(v: nat, width: nat): (s: string)
    ensures AllUpperHex(s)
    ensures |s| >= width && |s| >= NumDigits(v)
    ensures |s| == width || |s| == NumDigits(v)
    ensures HexValue(s) == v
  {
    var n := if NumDigits(v) > width then NumDigits(v) else width;
    FitsValue(v, n);
    FixedHex(v, n)
  }

  /** A value below `16^n` is read back unchanged from its `n`-digit field. */
  lemma FitsValue(v: nat, n: nat)
    requires n >= NumDigits(v)
    ensures HexValue(FixedHex(v, n)) == v
  {
    FixedHexValue(v, n);
    PowMonotone(NumDigits(v), n);
    DivModUnique(v, Pow16(n), 0, v);
  }

  lemma PowMonotone(a: nat, b: nat)
    requires a <= b
    ensures Pow16(a) <= Pow16(b)
  {
    if a < b {
      PowMonotone(a, b - 1);
    }
  }

  /** Quotient and remainder are the unique pair with `v == m * a + x` and `0 <= x < m`. */
  lemma DivModUnique(v: int, m: int, a: int, x: int)
    requires m > 0 && 0 <= x < m && v == m * a + x
    ensures v / m == a && v % m == x
  {
    var q, r := v / m, v % m;
    assert m * (a - q) == r - x;
    if a > q {
      MulAtLeast(m, a - q);
    } else if a < q {
      MulAtLeast(m, q - a);
    }
  }

  lemma MulAtLeast(m: int, k: int)
    requires m > 0 && k >= 1
    ensures m * k >= m
  {
  }

  /** Splitting off the last digit: `v % (16 * p)` from `v / 16` and `v % 16`. */
  lemma ModSplit(v: nat, p: nat)
    requires p >= 1
    ensures ((v / 16) % p) * 16 + v % 16 == v % (16 * p)
  {
    var q, r := v / 16, v % 16;
    var a, b := q / p, q % p;
    assert v == 16 * q + r;
    assert q == p * a + b;
    assert v == (16 * p) * a + (16 * b + r);
    DivModUnique(v, 16 * p, a, 16 * b + r);
  }

  /** Dividing twice is dividing by the product. */
  lemma DivDiv(v: nat, p: nat)
    requires p >= 1
    ensures (v / 16) / p == v / (16 * p)
  {
    var q, r := v / 16, v % 16;
    var a, b := q / p, q % p;
    assert v == 16 * q + r;
    assert q == p * a + b;
    assert v == (16 * p) * a + (16 * b + r);
    DivModUnique(v, 16 * p, a, 16 * b + r);
  }

  /** Reading back a fixed-width field gives the value modulo the field's range. */
  lemma {:induction false} FixedHexValue(v: nat, width: nat)
    ensures HexValue(FixedHex(v, width)) == v % Pow16(width)
  {
    if width > 0 {
      var s := FixedHex(v, width);
      assert s[..|s| - 1] == FixedHex(v / 16, width - 1);
      FixedHexValue(v / 16, width - 1);
      ModSplit(v, Pow16(width - 1));
    }
  }

  /** Digit `i` of a fixed-width field is the matching base-16 digit of `v`. */
  lemma {:induction false} FixedHexDigit(v: nat, width: nat, i: nat)
    requires i < width
    ensures FixedHex(v, width)[i] == HexDigit(v / Pow16(width - 1 - i) % 16)
  {
    if i < width - 1 {
      FixedHexDigit(v / 16, width - 1, i);
      DivDiv(v, Pow16(width - 2 - i));
    }
  }

  /** A value that fits its width is printed in exactly that many digits. */
  lemma FormatHexFits(v: nat, width: nat)
    requires width >= 1 && v < Pow16(width)
    ensures FormatHex(v, width) == FixedHex(v, width)
  {
    if NumDigits(v) > width {
      PowMonotone(width, NumDigits(v) - 1);
    }
  }

  /** Two strings of equal length and equal value are the same string. */
  lemma {:induction false} HexValueInjective(s: string, t: string)
    requires AllUpperHex(s) && AllUpperHex(t)
    requires |s| == |t| && HexValue(s) == HexValue(t)
    ensures s == t
  {
    if |s| > 0 {
      var n := |s| - 1;
      var a, b := s[..n], t[..n];
      assert IsUpperHex(s[n]) && IsUpperHex(t[n]) && AllUpperHex(a) && AllUpperHex(b);
      var x, y := DigitValue(s[n]), DigitValue(t[n]);
      assert HexValue(s) == 16 * HexValue(a) + x && HexValue(t) == 16 * HexValue(b) + y;
      DivModUnique(HexValue(s), 16, HexValue(a), x);
      DivModUnique(HexValue(t), 16, HexValue(b), y);
      assert s[n] == HexDigit(x) && t[n] == HexDigit(y);
      HexValueInjective(a, b);
      assert s == a + [s[n]] && t == b + [t[n]];
    }
  }

  /** `a * 16^n`, written so that each step multiplies by a constant. */
  function Shift(a: nat, n: nat): nat
  {
    if n == 0 then a else 16 * Shift(a, n - 1)
  }

  /** Printing two fields side by side is printing their combined value at the combined width. */
  lemma {:induction false} FixedHexConcat(a: nat, b: nat, m: nat, n: nat)
    requires b < Pow16(n)
    ensures FixedHex(a, m) + FixedHex(b, n) == FixedHex(Shift(a, n) + b, m + n)
  {
    if n > 0 {
      var x, y := Shift(a, n) + b, Shift(a, n - 1) + b / 16;
      assert b / 16 < Pow16(n - 1);
      DivModUnique(x, 16, y, b % 16);
      FixedHexConcat(a, b / 16, m, n - 1);
      var d := [HexDigit(b % 16)];
      assert FixedHex(x, m + n) == FixedHex(y, m + n - 1) + d;
      assert FixedHex(b, n) == FixedHex(b / 16, n - 1) + d;
      assert FixedHex(a, m) + FixedHex(b, n) == (FixedHex(a, m) + FixedHex(b / 16, n - 1)) + d;
    }
  }
}
