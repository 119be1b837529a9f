/**
 * Decimal digit strings: Python's `str.isdigit()` (restricted to ASCII
 * digits), their numeric value, and the zero-padded rendering `strftime` uses
 * for `%Y`, `%m` and `%d`.
 */
module Digits {
  import opened Text

  predicate IsDigit(c: char)
  {
    '0' <= c <= '9'
  }

  /** `s.isdigit()` for a non-empty `s`, over ASCII digits. */
  predicate AllDigits(s: string)
  {
    forall i :: 0 <= i < |s| ==> IsDigit(s[i])
  }

  function DigitValue(c: char): (d: nat)
    requires IsDigit(c)
    ensures d < 10
  {
    c as int - '0' as int
  }

  function DigitChar(d: nat): (c: char)
    requires d < 10
    ensures IsDigit(c) && DigitValue(c) == d
  {
    ('0' as int + d) as char
  }

  function Pow10(n: nat): (p: nat)
    ensures p >= 1
  {
    if n == 0 then 1 else 10 * Pow10(n - 1)
  }

  /** The number a digit string denotes in base ten. */
  function DecimalValue(s: string): nat
    requires AllDigits(s)
  {
    if s == [] then 0 else DecimalValue(s[..|s| - 1]) * 10 + DigitValue(s[|s| - 1])
  }

  /** A string of `n` digits denotes a number below `10^n`. */
  lemma {:induction false} ValueBound(s: string)
    requires AllDigits(s)
    ensures DecimalValue(s) < Pow10(|s|)
  {
    if s != [] {
      ValueBound(s[..|s| - 1]);
    }
  }

  /** The value of a concatenation shifts the front part left by the length of the back part. */
  lemma {:induction false} ValueConcat(a: string, b: string)
    requires AllDigits(a) && AllDigits(b)
    ensures AllDigits(a + b)
    ensures DecimalValue(a + b) == DecimalValue(a) * Pow10(|b|) + DecimalValue(b)
    decreases |b|
  {
    if b == [] {
      assert a + b == a;
    } else {
      var b' := b[..|b| - 1];
      assert (a + b)[..|a + b| - 1] == a + b';
      assert (a + b)[|a + b| - 1] == b[|b| - 1];
      ValueConcat(a, b');
      ShiftStep(DecimalValue(a), Pow10(|b'|), DecimalValue(b'), DigitValue(b[|b| - 1]));
    }
  }

  lemma ShiftStep(va: int, p: int, vb: int, d: int)
    ensures (va * p + vb) * 10 + d == va * (10 * p) + (vb * 10 + d)
  {
  }

  /** A leading digit below another one makes the whole number smaller. */
  lemma LeadingDigitDecides(da: nat, ra: nat, db: nat, rb: nat, p: nat)
    requires da < db && ra < p && rb < p
    ensures da * p + ra < db * p + rb
  {
    var k := db - da - 1;
    assert db * p == (da + 1) * p + k * p;
    assert (da + 1) * p == da * p + p;
  }

  /** The value of a digit string, read from its first digit. */
  lemma ValueFromFront(s: string)
    requires AllDigits(s) && s != []
    ensures DecimalValue(s) == DigitValue(s[0]) * Pow10(|s| - 1) + DecimalValue(s[1..])
  {
    var head, rest := [s[0]], s[1..];
    assert head + rest == s;
    assert head[..0] == [];
    assert DecimalValue(head) == DigitValue(s[0]);
    ValueConcat(head, rest);
  }

  /** `n` written with exactly `width` digits, zero-padded on the left (`%04d`, `%02d`). */
  function ZeroPadded(n: nat, width: nat): (r: string)
    ensures |r| == width && AllDigits(r)
    ensures n < Pow10(width) ==> DecimalValue(r) == n
  {
    if width == 0 then []
    else
      var front := ZeroPadded(n / 10, width - 1);
      var r := front + [DigitChar(n % 10)];
      assert r[..|r| - 1] == front;
      r
  }

  /**
   * For digit strings of equal length, Python's string order is numeric order.
   */
  lemma {:induction false} LexLessIsNumericLess(a: string, b: string)
    requires AllDigits(a) && AllDigits(b) && |a| == |b|
    ensures LexLess(a, b) <==> DecimalValue(a) < DecimalValue(b)
  {
    if a != [] {
      var n := |a| - 1;
      ValueFromFront(a);
      ValueFromFront(b);
      ValueBound(a[1..]);
      ValueBound(b[1..]);
      if a[0] == b[0] {
        LexLessIsNumericLess(a[1..], b[1..]);
      } else if a[0] < b[0] {
        LeadingDigitDecides(DigitValue(a[0]), DecimalValue(a[1..]), DigitValue(b[0]), DecimalValue(b[1..]), Pow10(n));
      } else {
        LeadingDigitDecides(DigitValue(b[0]), DecimalValue(b[1..]), DigitValue(a[0]), DecimalValue(a[1..]), Pow10(n));
      }
    }
  }
}
