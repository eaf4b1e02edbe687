/** Decimal numerals as Python's `str()` prints a non-negative `int` and as
    `int()` reads a string of digits. Character ids are handled through these
    numerals everywhere: catalog keys are `str(id)`, the element, weapon and
    rarity codes are single digits of `str(id)`, and the display sort key is
    read back with `int()`. */
module Decimal {

  predicate IsDigit(c: char) { '0' <= c <= '9' }

  predicate AllDigits(s: string) { forall i :: 0 <= i < |s| ==> IsDigit(s[i]) }

  /** The shape of `str(n)` for `n >= 0`: at least one digit, and no leading
      zero unless the numeral is "0" itself. */
  predicate Canonical(s: string) {
    |s| >= 1 && AllDigits(s) && (s[0] == '0' ==> |s| == 1)
  }

  function DigitValue(c: char): (d: nat)
    requires IsDigit(c)
    ensures d < 10
  {
    c as int - '0' as int
  }

  function DigitChar(d: nat): (c: char)
    requires d < 10
    ensures IsDigit(c) && DigitValue(c) == d
  {
    ('0' as int + d) as char
  }

  function Pow10(k: nat): (p: nat)
    ensures p >= 1
  {
    if k == 0 then 1 else 10 * Pow10(k - 1)
  }

  /** `str(n)` for a non-negative integer. */
  function Str(n: nat): (s: string)
    ensures Canonical(s)
    ensures s[0] == '0' <==> n == 0
  {
    if n < 10 then [DigitChar(n)] else Str(n / 10) + [DigitChar(n % 10)]
  }

  /** `str(n)` for any integer: a minus sign before the digits of a
      negative number. */
  function PyStr(n: int): (s: string)
    ensures |s| >= 1
  {
    if n < 0 then "-" + Str(-n) else Str(n)
  }

  /** A number of at least `10^k` prints with more than `k` digits. */
  lemma {:induction false} StrMinLength(n: nat, k: nat)
    requires n >= Pow10(k)
    ensures |Str(n)| > k
  {
    if k > 0 {
      StrMinLength(n / 10, k - 1);
    }
  }

  /** `int(s)` for a string made only of digits (leading zeros allowed, as
      Python allows them). */
  function Int(s: string): nat
    requires AllDigits(s)
  {
    if s == [] then 0 else Int(s[..|s| - 1]) * 10 + DigitValue(s[|s| - 1])
  }

  /** `int(str(...))` of a number gives the number back. */
  lemma {:induction false} IntOfStr(n: nat)
    ensures Int(Str(n)) == n
  {
    if n >= 10 {
      IntOfStr(n / 10);
      var s := Str(n);
      assert s[..|s| - 1] == Str(n / 10);
    }
  }

  /** A numeral with a non-zero first digit denotes a positive number. */
  lemma {:induction false} IntPositive(s: string)
    requires AllDigits(s) && |s| >= 1 && s[0] != '0'
    ensures Int(s) >= 1
  {
    if |s| > 1 {
      var p := s[..|s| - 1];
      assert p[0] == s[0];
      IntPositive(p);
    }
  }

  /** Reading a canonical numeral and printing it again gives it back, so
      `str` is a bijection between naturals and canonical numerals. */
  lemma {:induction false} StrOfInt(s: string)
    requires Canonical(s)
    ensures Str(Int(s)) == s
  {
    var d := DigitValue(s[|s| - 1]);
    if |s| == 1 {
      assert Int(s) == d;
      assert DigitChar(d) == s[0];
    } else {
      var p := s[..|s| - 1];
      assert p[0] == s[0];
      assert Canonical(p);
      StrOfInt(p);
      IntPositive(p);
      var n := Int(s);
      assert n == Int(p) * 10 + d;
      assert n / 10 == Int(p) && n % 10 == d;
      assert DigitChar(d) == s[|s| - 1];
      assert s == p + [s[|s| - 1]];
    }
  }

  /** Distinct canonical numerals denote distinct numbers. */
  lemma IntInjective(a: string, b: string)
    requires Canonical(a) && Canonical(b) && Int(a) == Int(b)
    ensures a == b
  {
    StrOfInt(a);
    StrOfInt(b);
  }

  lemma {:induction false} IntBound(s: string)
    requires AllDigits(s)
    ensures Int(s) < Pow10(|s|)
  {
    if s != [] {
      IntBound(s[..|s| - 1]);
    }
  }

  /** Reading a concatenation: the digits of `a` are shifted left by `|b|`. */
  lemma {:induction false} IntAppend(a: string, b: string)
    requires AllDigits(a) && AllDigits(b)
    ensures AllDigits(a + b)
    ensures Int(a + b) == Int(a) * Pow10(|b|) + Int(b)
  {
    if b == [] {
      assert a + b == a;
    } else {
      var b' := b[..|b| - 1];
      assert (a + b)[..|a + b| - 1] == a + b';
      assert (a + b)[|a + b| - 1] == b[|b| - 1];
      IntAppend(a, b');
      var d := DigitValue(b[|b| - 1]);
      calc {
        Int(a + b);
        Int(a + b') * 10 + d;
        (Int(a) * Pow10(|b'|) + Int(b')) * 10 + d;
        { ShiftDigit(Int(a), Pow10(|b'|), Int(b'), d); }
        Int(a) * (Pow10(|b'|) * 10) + (Int(b') * 10 + d);
        Int(a) * Pow10(|b|) + Int(b);
      }
    }
  }

  lemma ShiftDigit(x: int, p: int, y: int, d: int)
    ensures (x * p + y) * 10 + d == x * (p * 10) + (y * 10 + d)
  {
  }

  /** A one-digit head followed by `k` digits is below the next multiple of
      `Pow10(k)`. */
  lemma HeadBound(x: string)
    requires AllDigits(x) && |x| >= 1
    ensures Int(x) < (DigitValue(x[0]) + 1) * Pow10(|x| - 1)
    ensures Int(x) >= DigitValue(x[0]) * Pow10(|x| - 1)
  {
    var h, head, t := DigitValue(x[0]), x[..1], x[1..];
    assert x == head + t;
    assert Int(head) == h by {
      assert head[..0] == [];
      assert Int(head) == Int(head[..0]) * 10 + DigitValue(head[0]);
    }
    IntAppend(head, t);
    IntBound(t);
    var P := Pow10(|t|);
    assert Int(x) == h * P + Int(t);
    SuccMul(h, P);
  }

  /** For numerals of equal length, the first differing digit decides the
      numeric order: a smaller digit after a common prefix gives a smaller
      number, whatever follows. */
  lemma NumericOrderFromDigit(p: string, x: string, y: string)
    requires AllDigits(p) && AllDigits(x) && AllDigits(y)
    requires |x| == |y| >= 1 && DigitValue(x[0]) < DigitValue(y[0])
    ensures AllDigits(p + x) && AllDigits(p + y)
    ensures Int(p + x) < Int(p + y)
  {
    var k := |x| - 1;
    HeadBound(x);
    HeadBound(y);
    var P := Pow10(k);
    assert (DigitValue(x[0]) + 1) * P <= DigitValue(y[0]) * P by {
      MulMono(DigitValue(x[0]) + 1, DigitValue(y[0]), P);
    }
    IntAppend(p, x);
    IntAppend(p, y);
    assert Int(p) * Pow10(|x|) + Int(x) < Int(p) * Pow10(|y|) + Int(y);
  }

  lemma SuccMul(a: nat, b: nat)
    ensures (a + 1) * b == a * b + b
  {
  }

  lemma MulMono(a: nat, b: nat, c: nat)
    requires a <= b
    ensures a * c <= b * c
  {
  }
}
